/** The bounded string copy and append, as loops over the destination in place. */
module Utils {
  import opened Seqs
  import opened CStrings

  /** A buffer after a bounded copy: the text cut to n - 1 bytes, a NUL, the old rest. */
  function Copied(buf: seq<char>, s: string, n: nat): (r: seq<char>)
    requires n <= |buf|
    ensures |r| == |buf|
  {
    if n == 0 then buf else
      var t := Cut(s, n - 1);
      t + [NUL] + buf[|t| + 1..]
  }

  /** A buffer after a bounded append: unchanged when its first n bytes hold no NUL. */
  function Appended(buf: seq<char>, s: string, n: nat): (r: seq<char>)
    requires n <= |buf|
    ensures |r| == |buf|
  {
    var len := StrLen(buf[..n]);
    if len == n then buf else
      var t := Cut(s, n - len - 1);
      buf[..len] + t + [NUL] + buf[len + |t| + 1..]
  }

  /** What the append returns: the old length, at most n, plus the length of the source. */
  function AppendReturn(buf: seq<char>, s: string, n: nat): nat
    requires n <= |buf|
  {
    StrLen(buf[..n]) + |s|
  }

  method Strlcpy(dst: array<char>, src: seq<char>, dsize: nat) returns (r: nat)
    requires dsize <= dst.Length && StrLen(src) < |src|
    modifies dst
    ensures dst[..] == Copied(old(dst[..]), Text(src), dsize)
    ensures r == |Text(src)|
  {
    var s, d, nleft := 0, 0, dsize;
    ghost var len := StrLen(src);
    if nleft != 0 {
      while true
        invariant nleft + d == dsize && nleft > 0 && s == d <= len
        invariant forall i :: 0 <= i < d ==> dst[i] == src[i]
        invariant forall i :: d <= i < dst.Length ==> dst[i] == old(dst[i])
        decreases nleft
      {
        nleft := nleft - 1;
        if nleft == 0 {
          break;
        }
        dst[d] := src[s];
        d, s := d + 1, s + 1;
        if dst[d - 1] == NUL {
          break;
        }
      }
    }
    if nleft == 0 {
      if dsize != 0 {
        dst[d] := NUL;
        d := d + 1;
      }
      while src[s] != NUL
        invariant s <= len
        invariant dsize > 0 ==> d == dsize && forall i :: 0 <= i < d - 1 ==> dst[i] == src[i]
        decreases len - s
      {
        s := s + 1;
      }
      s := s + 1;
    }
    r := s - 1;
    CopiedIs(old(dst[..]), Text(src), dsize, dst[..]);
  }

  /** A buffer that is, byte by byte, the result of a copy. */
  lemma CopiedIs(was: seq<char>, s: string, n: nat, r: seq<char>)
    requires n <= |was| == |r|
    requires n == 0 ==> r == was
    requires n > 0 ==> var k := Min(|s|, n - 1);
             && (forall i :: 0 <= i < k ==> r[i] == s[i])
             && r[k] == NUL
             && (forall i :: k < i < |r| ==> r[i] == was[i])
    ensures r == Copied(was, s, n)
  {
    if n > 0 {
      var t := Cut(s, n - 1);
      Rebuilt(r, "", t, was[|t| + 1..]);
      assert "" + t == t;
    }
  }

  /** Lines 57-61: the end of the old string, or n when the first n bytes hold no NUL. */
  method FindEnd(dst: array<char>, dsize: nat) returns (dlen: nat)
    requires dsize <= dst.Length
    ensures dlen == StrLen(dst[..dsize])
  {
    var d, n := 0, dsize as int;
    while true
      invariant n + d == dsize && n >= 0
      invariant forall i :: 0 <= i < d ==> dst[i] != NUL
      decreases n
    {
      // the unsigned counter may wrap below zero here; it is reassigned before its next use
      n := n - 1;
      if n < 0 || dst[d] == NUL {
        break;
      }
      d := d + 1;
    }
    StrLenIs(dst[..dsize], d);
    return d;
  }

  method Strlcat(dst: array<char>, src: seq<char>, dsize: nat) returns (r: nat)
    requires dsize <= dst.Length && StrLen(src) < |src|
    modifies dst
    ensures dst[..] == Appended(old(dst[..]), Text(src), dsize)
    ensures r == AppendReturn(old(dst[..]), Text(src), dsize)
  {
    var dlen := FindEnd(dst, dsize);
    var d := dlen;
    var n := dsize - dlen;
    ghost var len := StrLen(src);
    ghost var was := dst[..];
    assert was[..dsize] == dst[..dsize];
    if n == 0 {
      r := dlen + StrLen(src);
      return;
    }
    n := n - 1;
    var s := 0;
    while src[s] != NUL
      invariant s <= len
      invariant d - dlen == Min(s, dsize - dlen - 1) && n == dsize - 1 - d
      invariant forall i :: 0 <= i < dlen ==> dst[i] == was[i]
      invariant forall i :: dlen <= i < d ==> dst[i] == src[i - dlen]
      invariant forall i :: d <= i < dst.Length ==> dst[i] == was[i]
      decreases len - s
    {
      if n != 0 {
        dst[d] := src[s];
        d := d + 1;
        n := n - 1;
      }
      s := s + 1;
    }
    dst[d] := NUL;
    r := dlen + s;
    AppendedIs(was, Text(src), dsize, dst[..]);
  }

  /** A buffer that is, byte by byte, the result of an append. */
  lemma AppendedIs(was: seq<char>, s: string, n: nat, r: seq<char>)
    requires n <= |was| == |r| && StrLen(was[..n]) < n
    requires var len := StrLen(was[..n]); var k := Min(|s|, n - len - 1);
             && (forall i :: 0 <= i < len ==> r[i] == was[i])
             && (forall i :: len <= i < len + k ==> r[i] == s[i - len])
             && r[len + k] == NUL
             && (forall i :: len + k < i < |r| ==> r[i] == was[i])
    ensures r == Appended(was, s, n)
  {
    var len := StrLen(was[..n]);
    var t := Cut(s, n - len - 1);
    Rebuilt(r, was[..len], t, was[len + |t| + 1..]);
  }

  /** Byte by byte what a copy leaves: nothing changes for a bound of zero. */
  lemma CopiedBytes(buf: seq<char>, s: string, n: nat)
    requires n <= |buf|
    ensures var r := Copied(buf, s, n); var k := Min(|s|, n - 1);
            && (n == 0 ==> r == buf)
            && (n > 0 ==>
                  && (forall i :: 0 <= i < k ==> r[i] == s[i])
                  && r[k] == NUL
                  && (forall i :: k < i < |r| ==> r[i] == buf[i]))
  {
  }

  /** Byte by byte what an append leaves: nothing changes when the old string reaches the bound. */
  lemma AppendedBytes(buf: seq<char>, s: string, n: nat)
    requires n <= |buf|
    ensures var r := Appended(buf, s, n); var len := StrLen(buf); var k := Min(|s|, n - len - 1);
            && (len >= n ==> r == buf)
            && (len < n ==>
                  && (forall i :: 0 <= i < len ==> r[i] == buf[i])
                  && (forall i :: len <= i < len + k ==> r[i] == s[i - len])
                  && r[len + k] == NUL
                  && (forall i :: len + k < i < |r| ==> r[i] == buf[i]))
    ensures AppendReturn(buf, s, n) == Min(n, StrLen(buf)) + |s|
  {
    hide StrLen, Appended, Copied;
    AppendedParts(buf, s, n);
    LengthInBound(buf, n);
    var len := StrLen(buf);
    if len < n {
      var t := Cut(s, n - len - 1);
      PartsOf(buf[..len], t, buf[len + |t| + 1..]);
    }
  }

  lemma AppendedParts(buf: seq<char>, s: string, n: nat)
    requires n <= |buf|
    ensures var len := StrLen(buf);
            Appended(buf, s, n)
            == if len >= n then buf
               else buf[..len] + Cut(s, n - len - 1) + [NUL] + buf[len + |Cut(s, n - len - 1)| + 1..]
  {
    hide StrLen;
    LengthInBound(buf, n);
  }

  lemma PartsOf(start: seq<char>, t: string, rest: seq<char>)
    ensures var r := start + t + [NUL] + rest;
            && (forall i :: 0 <= i < |start| ==> r[i] == start[i])
            && (forall i :: |start| <= i < |start| + |t| ==> r[i] == t[i - |start|])
            && r[|start| + |t|] == NUL
            && (forall i :: |start| + |t| < i < |r| ==> r[i] == rest[i - |start| - |t| - 1])
  {
  }

  lemma LengthInBound(buf: seq<char>, n: nat)
    requires n <= |buf|
    ensures StrLen(buf[..n]) == Min(n, StrLen(buf))
  {
    StrLenIs(buf[..n], Min(n, StrLen(buf)));
  }

  // ----- The law of a copy followed by appends -----

  function Concat(ss: seq<string>): string {
    if ss == [] then "" else ss[0] + Concat(ss[1..])
  }

  /** The buffer after appending each string in turn with the same bound. */
  function AppendAll(buf: seq<char>, ss: seq<string>, n: nat): (r: seq<char>)
    requires n <= |buf|
    ensures |r| == |buf|
    decreases |ss|
  {
    if ss == [] then buf else AppendAll(Appended(buf, ss[0], n), ss[1..], n)
  }

  /** Some append reported a length of n or more. */
  predicate SomeReturnReaches(buf: seq<char>, ss: seq<string>, n: nat)
    requires n <= |buf|
    decreases |ss|
  {
    ss != [] && (AppendReturn(buf, ss[0], n) >= n || SomeReturnReaches(Appended(buf, ss[0], n), ss[1..], n))
  }

  /** A buffer whose first n bytes hold the first n - 1 bytes of a text, NUL-terminated. */
  predicate HoldsCut(buf: seq<char>, t: string, n: nat) {
    0 < n <= |buf| && StrLen(buf) < n && Text(buf) == Cut(t, n - 1)
  }

  lemma HoldsCutBy(buf: seq<char>, t: string, n: nat)
    requires 0 < n <= |buf| && NoNul(t)
    requires |Cut(t, n - 1)| < |buf| && buf[..|Cut(t, n - 1)|] == Cut(t, n - 1)
    requires buf[|Cut(t, n - 1)|] == NUL
    ensures HoldsCut(buf, t, n)
  {
    StrLenIs(buf, |Cut(t, n - 1)|);
  }

  lemma AppendStep(buf: seq<char>, t: string, s: string, n: nat)
    requires HoldsCut(buf, t, n) && NoNul(t) && NoNul(s)
    ensures HoldsCut(Appended(buf, s, n), t + s, n)
    ensures Appended(buf, s, n)[n..] == buf[n..]
    ensures |t + s| >= n <==> |t| >= n || AppendReturn(buf, s, n) >= n
  {
    hide NoNul;
    HeldEnd(buf, t, n);
    CutMore(t, s, n - 1);
    BothNoNul(t, s);
    HoldsCutBy(Appended(buf, s, n), t + s, n);
  }

  /** The text held by the first n bytes ends where the text held by the buffer does. */
  lemma HeldEnd(buf: seq<char>, t: string, n: nat)
    requires HoldsCut(buf, t, n)
    ensures StrLen(buf[..n]) == StrLen(buf) == |Cut(t, n - 1)| && buf[..StrLen(buf)] == Cut(t, n - 1)
  {
    var len := StrLen(buf);
    assert buf[..n][..len] == buf[..len];
    StrLenIs(buf[..n], len);
  }

  lemma BothNoNul(t: string, s: string)
    requires NoNul(t) && NoNul(s)
    ensures NoNul(t + s)
  {
  }

  lemma CutMore(t: string, s: string, n: nat)
    ensures Cut(t + s, n) == Cut(t, n) + Cut(s, n - |Cut(t, n)|)
  {
  }

  lemma ConcatNext(t: string, ss: seq<string>)
    requires ss != []
    ensures t + Concat(ss) == t + ss[0] + Concat(ss[1..])
  {
  }

  lemma {:induction false} AppendsAfter(buf: seq<char>, t: string, ss: seq<string>, n: nat)
    requires HoldsCut(buf, t, n) && NoNul(t) && forall i :: 0 <= i < |ss| ==> NoNul(ss[i])
    ensures HoldsCut(AppendAll(buf, ss, n), t + Concat(ss), n)
    ensures AppendAll(buf, ss, n)[n..] == buf[n..]
    ensures |t + Concat(ss)| >= n <==> |t| >= n || SomeReturnReaches(buf, ss, n)
    decreases |ss|
  {
    if ss == [] {
      assert t + Concat(ss) == t;
    } else {
      hide Appended, HoldsCut, AppendReturn, Concat;
      AppendStep(buf, t, ss[0], n);
      AppendsAfter(Appended(buf, ss[0], n), t + ss[0], ss[1..], n);
      ConcatNext(t, ss);
    }
  }

  lemma CopyHolds(buf: seq<char>, first: string, n: nat)
    requires 0 < n <= |buf| && NoNul(first)
    ensures HoldsCut(Copied(buf, first, n), first, n) && Copied(buf, first, n)[n..] == buf[n..]
  {
    HoldsCutBy(Copied(buf, first, n), first, n);
  }

  lemma HeldText(buf: seq<char>, t: string, n: nat)
    requires HoldsCut(buf, t, n)
    ensures n > 0 && Text(buf) == Cut(t, n - 1) && StrLen(buf) < n
  {
  }

  /**
   A bounded copy followed by any number of bounded appends leaves the first n - 1 bytes of
   the whole concatenation, NUL-terminated, and touches nothing from n on. Text was lost
   exactly when one of the calls returned n or more.
   */
  lemma {:induction false} CopyThenAppends(buf: seq<char>, first: string, ss: seq<string>, n: nat)
    requires 0 < n <= |buf|
    requires NoNul(first) && forall i :: 0 <= i < |ss| ==> NoNul(ss[i])
    ensures var r := AppendAll(Copied(buf, first, n), ss, n);
            && Text(r) == Cut(first + Concat(ss), n - 1)
            && StrLen(r) < n
            && r[n..] == buf[n..]
    ensures |first + Concat(ss)| > n - 1
            <==> |first| >= n || SomeReturnReaches(Copied(buf, first, n), ss, n)
  {
    hide Appended, AppendAll, SomeReturnReaches, HoldsCut;
    CopyHolds(buf, first, n);
    assert NoNul(first);
    AppendsAfter(Copied(buf, first, n), first, ss, n);
    HeldText(AppendAll(Copied(buf, first, n), ss, n), first + Concat(ss), n);
  }
}
