/**
 Search and replace of the String class, on its character buffer.

 The buffer holds `len` characters and a terminator.  `Substitute` is the meaning of
 replace: left to right, without overlaps.
 */
module WString {

  predicate OccursAt(s: string, find: string, i: nat) {
    i + |find| <= |s| && s[i..i + |find|] == find
  }

  /** memmem: the first occurrence from `from` on, or -1. */
  function Find(s: string, find: string, from: nat): (r: int)
    ensures r == -1 || from <= r <= |s| - |find|
    decreases |s| - from
  {
    if from + |find| > |s| then -1
    else if OccursAt(s, find, from) then from
    else Find(s, find, from + 1)
  }

  lemma {:induction false} FindIsFirst(s: string, find: string, from: nat)
    ensures var r := Find(s, find, from);
            && (r != -1 ==> OccursAt(s, find, r))
            && forall j :: from <= j && OccursAt(s, find, j) ==> r != -1 && r <= j
    decreases |s| - from
  {
    if from + |find| <= |s| && !OccursAt(s, find, from) {
      FindIsFirst(s, find, from + 1);
    }
  }

  /** Every occurrence replaced, left to right; the text after one is searched anew. */
  function Substitute(s: string, find: string, rep: string): string
    decreases |s|
  {
    var i := Find(s, find, 0);
    if find == [] || i == -1 then s
    else s[..i] + rep + Substitute(s[i + |find|..], find, rep)
  }

  /** A forward memcpy to a lower or equal address. */
  method CopyDown(buf: array<char>, to: nat, from: nat, n: nat)
    requires to <= from && from + n <= buf.Length
    modifies buf
    ensures buf[to..to + n] == old(buf[from..from + n])
    ensures forall k :: 0 <= k < buf.Length && !(to <= k < to + n) ==> buf[k] == old(buf[k])
  {
    var i := 0;
    while i < n
      invariant i <= n
      invariant forall k :: to <= k < to + i ==> buf[k] == old(buf[k + from - to])
      invariant forall k :: 0 <= k < buf.Length && !(to <= k < to + i) ==> buf[k] == old(buf[k])
    {
      buf[to + i] := buf[from + i];
      i := i + 1;
    }
  }

  method Store(buf: array<char>, to: nat, s: string)
    requires to + |s| <= buf.Length
    modifies buf
    ensures buf[to..to + |s|] == s
    ensures forall k :: 0 <= k < buf.Length && !(to <= k < to + |s|) ==> buf[k] == old(buf[k])
  {
    var i := 0;
    while i < |s|
      invariant i <= |s|
      invariant forall k :: to <= k < to + i ==> buf[k] == s[k - to]
      invariant forall k :: 0 <= k < buf.Length && !(to <= k < to + i) ==> buf[k] == old(buf[k])
    {
      buf[to + i] := s[i];
      i := i + 1;
    }
  }

  /** `done` is the replaced form of the first r characters: what follows is still to be replaced. */
  ghost predicate Progress(text: string, r: nat, done: string, find: string, rep: string) {
    r <= |text| && done + Substitute(text[r..], find, rep) == Substitute(text, find, rep)
  }

  /** One found occurrence: what stays before it, then the replacement. */
  lemma {:induction false} ProgressStep(text: string, r: nat, done: string, n: nat, find: string, rep: string)
    requires Progress(text, r, done, find, rep) && find != [] && Find(text[r..], find, 0) == n
    ensures r + n + |find| <= |text|
    ensures Progress(text, r + n + |find|, done + text[r..r + n] + rep, find, rep)
  {
    assert text[r..][..n] == text[r..r + n] && text[r..][n + |find|..] == text[r + n + |find|..];
    var rest := Substitute(text[r + n + |find|..], find, rep);
    assert Substitute(text[r..], find, rep) == text[r..r + n] + rep + rest;
    assert done + (text[r..r + n] + rep + rest) == done + text[r..r + n] + rep + rest;
  }

  lemma {:induction false} ProgressStart(text: string, find: string, rep: string)
    ensures Progress(text, 0, "", find, rep)
  {
    assert text[0..] == text;
  }

  lemma {:induction false} ProgressEnd(text: string, r: nat, done: string, find: string, rep: string)
    requires Progress(text, r, done, find, rep) && Find(text[r..], find, 0) == -1
    ensures done + text[r..] == Substitute(text, find, rep)
  {
  }

  /** The buffer while replacing: finished text below w, input not read yet from r on. */
  ghost predicate Holds(b: seq<char>, text: string, r: nat, w: nat, done: string) {
    && w <= r <= |text| < |b|
    && |done| == w && (forall k :: 0 <= k < w ==> b[k] == done[k])
    && (forall k :: r <= k < |text| ==> b[k] == text[k])
  }

  /** b' is b with n characters moved from r down to w and `rep` stored after them. */
  ghost predicate Moved(b: seq<char>, b': seq<char>, w: nat, r: nat, n: nat, rep: string) {
    && w <= r && r + n <= |b| == |b'|
    && forall k {:trigger b'[k]} :: 0 <= k < |b| ==>
         b'[k] == if w <= k < w + n then b[k + r - w] else if w + n <= k < w + n + |rep| then rep[k - w - n] else b[k]
  }

  lemma HoldsStep(b: seq<char>, b': seq<char>, text: string, r: nat, w: nat, done: string, n: nat, skip: nat,
                  rep: string)
    requires Holds(b, text, r, w, done) && |rep| <= skip && r + n + skip <= |text| && Moved(b, b', w, r, n, rep)
    ensures Holds(b', text, r + n + skip, w + n + |rep|, done + text[r..r + n] + rep)
  {
    var done' := done + text[r..r + n] + rep;
    forall k | 0 <= k < w + n + |rep|
      ensures b'[k] == done'[k]
    {
      if k < w {
        assert b'[k] == b[k] == done[k];
      } else if k < w + n {
        assert b'[k] == b[k + r - w] == text[k + r - w];
      }
    }
  }

  lemma MovedDown(b: seq<char>, b': seq<char>, w: nat, r: nat, n: nat)
    requires w <= r && r + n <= |b| == |b'| && b'[w..w + n] == b[r..r + n]
    requires forall k :: 0 <= k < |b| && !(w <= k < w + n) ==> b'[k] == b[k]
    ensures Moved(b, b', w, r, n, "")
  {
    forall k {:trigger b'[k]} | w <= k < w + n
      ensures b'[k] == b[k + r - w]
    {
      assert b'[w..w + n][k - w] == b[r..r + n][k - w];
    }
  }

  lemma MovedAndStored(b: seq<char>, m: seq<char>, b': seq<char>, w: nat, r: nat, n: nat, rep: string)
    requires Moved(b, m, w, r, n, "") && |b'| == |m| && w + n + |rep| <= |m| && b'[w + n..w + n + |rep|] == rep
    requires forall k :: 0 <= k < |m| && !(w + n <= k < w + n + |rep|) ==> b'[k] == m[k]
    ensures Moved(b, b', w, r, n, rep)
  {
    forall k {:trigger b'[k]} | w + n <= k < w + n + |rep|
      ensures b'[k] == rep[k - w - n]
    {
      assert b'[w + n..w + n + |rep|][k - w - n] == rep[k - w - n];
    }
  }

  lemma HeldText(b: seq<char>, text: string, r: nat, w: nat, done: string)
    requires Holds(b, text, r, w, done)
    ensures b[..w] == done
  {
  }

  lemma Unread(b: seq<char>, text: string, r: nat, w: nat, done: string)
    requires Holds(b, text, r, w, done)
    ensures b[r..|text|] == text[r..]
  {
  }

  method MoveAndStore(buf: array<char>, w: nat, r: nat, n: nat, rep: string)
    requires w <= r && r + n + |rep| <= buf.Length
    modifies buf
    ensures Moved(old(buf[..]), buf[..], w, r, n, rep)
  {
    ghost var b := buf[..];
    CopyDown(buf, w, r, n);
    ghost var m := buf[..];
    MovedDown(b, m, w, r, n);
    Store(buf, w + n, rep);
    MovedAndStored(b, m, buf[..], w, r, n, rep);
  }

  /** replace() when the replacement is shorter: the text is moved down in the same buffer. */
  method ReplaceShorter(buf: array<char>, len0: nat, find: string, rep: string) returns (len: nat)
    requires len0 < buf.Length && 0 < |find| && |rep| < |find|
    modifies buf
    ensures len <= len0 && buf[..len] == Substitute(old(buf[..len0]), find, rep) && buf[len] == '\0'
  {
    hide Progress, Find, Substitute;
    ghost var text, done := buf[..len0], "";
    var readFrom, writeTo := 0, 0;
    len := len0;
    ProgressStart(text, find, rep);
    while true
      invariant 0 <= writeTo <= readFrom <= len0 && len == writeTo + (len0 - readFrom)
      invariant Holds(buf[..], text, readFrom, writeTo, done) && Progress(text, readFrom, done, find, rep)
      decreases len0 - readFrom
    {
      ghost var b := buf[..];
      Unread(b, text, readFrom, writeTo, done);
      assert buf[readFrom..len0] == b[readFrom..len0];
      var n := Find(buf[readFrom..len0], find, 0);
      if n == -1 {
        break;
      }
      MoveAndStore(buf, writeTo, readFrom, n, rep);
      ProgressStep(text, readFrom, done, n, find, rep);
      HoldsStep(b, buf[..], text, readFrom, writeTo, done, n, |find|, rep);
      done := done + text[readFrom..readFrom + n] + rep;
      writeTo := writeTo + n + |rep|;
      readFrom := readFrom + n + |find|;
      len := len - |find| + |rep|;
    }
    Finish(buf, len0, text, readFrom, writeTo, done, find, rep);
  }

  /** The rest of the text moved down, and the terminator. */
  method Finish(buf: array<char>, len0: nat, ghost text: string, r: nat, w: nat, ghost done: string,
                ghost find: string, ghost rep: string)
    requires len0 == |text| && Holds(buf[..], text, r, w, done)
    requires Progress(text, r, done, find, rep) && Find(text[r..], find, 0) == -1
    modifies buf
    ensures var len := w + (|text| - r); buf[..len] == Substitute(text, find, rep) && buf[len] == '\0'
  {
    ProgressEnd(text, r, done, find, rep);
    hide Progress, Find, Substitute;
    ghost var b := buf[..];
    var n := len0 - r;
    CopyDown(buf, w, r, n);
    MovedDown(b, buf[..], w, r, n);
    HoldsStep(b, buf[..], text, r, w, done, n, 0, "");
    HeldText(buf[..], text, len0, w + n, done + text[r..r + n] + "");
    assert text[r..r + n] == text[r..] && done + text[r..] + "" == done + text[r..];
    assert buf[..w + n] == done + text[r..];
    hide Holds;
    buf[w + (len0 - r)] := '\0';
  }

  /** replace() when both have the same length: each occurrence is overwritten where it is. */
  method ReplaceSame(buf: array<char>, len: nat, find: string, rep: string)
    requires len < buf.Length && 0 < |find| == |rep|
    modifies buf
    ensures buf[..len] == Substitute(old(buf[..len]), find, rep)
    ensures forall k :: len <= k < buf.Length ==> buf[k] == old(buf[k])
  {
    hide Progress, Find, Substitute;
    ghost var text, done := buf[..len], "";
    var readFrom := 0;
    ProgressStart(text, find, rep);
    while true
      invariant 0 <= readFrom <= len
      invariant Holds(buf[..], text, readFrom, readFrom, done) && Progress(text, readFrom, done, find, rep)
      invariant forall k :: len <= k < buf.Length ==> buf[k] == old(buf[k])
      decreases len - readFrom
    {
      ghost var b := buf[..];
      Unread(b, text, readFrom, readFrom, done);
      assert buf[readFrom..len] == b[readFrom..len];
      var n := Find(buf[readFrom..len], find, 0);
      if n == -1 {
        break;
      }
      Store(buf, readFrom + n, rep);
      assert Moved(b, buf[..], readFrom, readFrom, n, rep);
      ProgressStep(text, readFrom, done, n, find, rep);
      HoldsStep(b, buf[..], text, readFrom, readFrom, done, n, |find|, rep);
      done := done + text[readFrom..readFrom + n] + rep;
      readFrom := readFrom + n + |rep|;
    }
    ProgressEnd(text, readFrom, done, find, rep);
    assert buf[..len] == done + text[readFrom..];
  }

  /** The last occurrence that starts at `from` or before, or -1. */
  ghost predicate IsLast(s: string, find: string, from: int, r: int) {
    && (r == -1 || (0 <= r <= from && OccursAt(s, find, r)))
    && forall j :: 0 <= j <= from && OccursAt(s, find, j) ==> j <= r
  }

  /** lastIndexOf(s2, fromIndex): repeated forward search. */
  method LastIndexOf(s: string, s2: string, fromIndex0: nat) returns (found: int)
    ensures s2 == [] ==> found == -1
    ensures s2 != [] ==> IsLast(s, s2, fromIndex0, found)
  {
    var fromIndex := fromIndex0;
    found := -1;
    if |s2| == 0 || |s| == 0 || |s2| > |s| {
      return;
    }
    if fromIndex >= |s| {
      fromIndex := |s| - 1;
    }
    var p := 0;
    while p <= fromIndex
      invariant 0 <= p && (found == -1 || (0 <= found < p && found <= fromIndex && OccursAt(s, s2, found)))
      invariant forall j :: 0 <= j < p && j <= fromIndex && OccursAt(s, s2, j) ==> j <= found
      decreases fromIndex + 1 - p
    {
      var q := Find(s, s2, p);
      FindIsFirst(s, s2, p);
      if q == -1 {
        break;
      }
      if q <= fromIndex {
        found := q;
      }
      p := q + 1;
    }
  }
}
