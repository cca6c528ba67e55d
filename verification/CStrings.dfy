/**
 C strings and the few library functions the program relies on. A byte is a `char`; the
 terminator is NUL. A buffer is a sequence of bytes, the string in it is the text before
 its first NUL.
 */
module CStrings {
  import opened Seqs

  const NUL: char := '\0'

  /** strlen: the position of the first NUL, or the size of a buffer that has none. */
  function StrLen(buf: seq<char>): (n: nat)
    ensures n <= |buf|
    ensures forall i :: 0 <= i < n ==> buf[i] != NUL
    ensures n < |buf| ==> buf[n] == NUL
  {
    if buf == [] || buf[0] == NUL then 0 else 1 + StrLen(buf[1..])
  }

  /** The string held by a buffer. */
  function Text(buf: seq<char>): string {
    buf[..StrLen(buf)]
  }

  predicate NoNul(s: string) {
    forall i :: 0 <= i < |s| ==> s[i] != NUL
  }

  lemma StrLenIs(buf: seq<char>, n: nat)
    requires n <= |buf| && NoNul(buf[..n])
    requires n < |buf| ==> buf[n] == NUL
    ensures StrLen(buf) == n && Text(buf) == buf[..n]
  {
    assert forall i :: 0 <= i < n ==> buf[i] == buf[..n][i];
  }

  /** A buffer is its four parts: a start, a text, a NUL and a rest. */
  lemma Rebuilt(r: seq<char>, start: seq<char>, t: string, rest: seq<char>)
    requires |r| == |start| + |t| + 1 + |rest|
    requires forall i :: 0 <= i < |start| ==> r[i] == start[i]
    requires forall i :: |start| <= i < |start| + |t| ==> r[i] == t[i - |start|]
    requires r[|start| + |t|] == NUL
    requires forall i :: 0 <= i < |rest| ==> r[|start| + |t| + 1 + i] == rest[i]
    ensures r == start + t + [NUL] + rest
  {
    assert r[..|start|] == start;
    assert r[|start|..|start| + |t|] == t;
    assert r[|start| + |t| + 1..] == rest;
    assert r == r[..|start|] + r[|start|..|start| + |t|] + [r[|start| + |t|]] + r[|start| + |t| + 1..];
  }

  /** The first n bytes of a string, all of it when it is shorter. */
  function Cut(s: string, n: nat): (c: string)
    ensures |c| == Min(n, |s|)
  {
    s[..Min(n, |s|)]
  }

  function Zeros(n: nat): (z: seq<char>)
    ensures |z| == n && forall i :: 0 <= i < n ==> z[i] == NUL
  {
    seq(n, _ => NUL)
  }

  // ----- Letter case -----

  /** g_ascii_tolower on one byte. */
  function LowerChar(c: char): char {
    if 'A' <= c <= 'Z' then ((c as int) + 32) as char else c
  }

  function Lower(s: string): (l: string)
    ensures |l| == |s|
    ensures forall i :: 0 <= i < |s| ==> l[i] == LowerChar(s[i])
  {
    seq(|s|, i requires 0 <= i < |s| => LowerChar(s[i]))
  }

  /** g_ascii_strcasecmp returned zero. */
  predicate SameIgnoringCase(a: string, b: string) {
    Lower(a) == Lower(b)
  }

  /** Two equal bytes, or the two cases of one ASCII letter. */
  predicate SameLetter(c: char, d: char) {
    || c == d
    || ('A' <= c <= 'Z' && d as int == c as int + 32)
    || ('A' <= d <= 'Z' && c as int == d as int + 32)
  }

  /** Ignoring case means: equal lengths, and each pair of bytes equal or one letter's two cases. */
  lemma SameIgnoringCaseIff(a: string, b: string)
    ensures SameIgnoringCase(a, b) <==> |a| == |b| && forall i :: 0 <= i < |a| ==> SameLetter(a[i], b[i])
  {
    if SameIgnoringCase(a, b) {
      forall i | 0 <= i < |a| ensures SameLetter(a[i], b[i]) {
        assert Lower(a)[i] == Lower(b)[i];
      }
    } else if |a| == |b| {
      var i :| 0 <= i < |a| && Lower(a)[i] != Lower(b)[i];
      assert !SameLetter(a[i], b[i]);
    }
  }

  lemma LowerLower(s: string)
    ensures Lower(Lower(s)) == Lower(s)
  {
  }

  predicate HasPrefix(s: string, prefix: string) {
    |prefix| <= |s| && s[..|prefix|] == prefix
  }

  // ----- Split and join -----

  /** strstr: the least position at which sep occurs in s, or |s| when it does not. */
  function Find(s: string, sep: string): (k: nat)
    requires sep != ""
    ensures k <= |s|
    ensures k < |s| ==> HasPrefix(s[k..], sep)
    ensures forall i :: 0 <= i < k ==> !HasPrefix(s[i..], sep)
  {
    if s == "" || HasPrefix(s, sep) then 0
    else
      var k := Find(s[1..], sep);
      assert forall i :: 0 < i <= |s| ==> s[i..] == s[1..][i - 1..];
      1 + k
  }

  /** The pieces of s between occurrences of sep; there is always at least one. */
  function Pieces(s: string, sep: string): (ps: seq<string>)
    requires sep != ""
    ensures ps != []
    decreases |s|
  {
    var k := Find(s, sep);
    if k == |s| then [s] else [s[..k]] + Pieces(s[k + |sep|..], sep)
  }

  /** g_strsplit without a limit: an empty string has no pieces. */
  function Split(s: string, sep: string): seq<string>
    requires sep != ""
  {
    if s == "" then [] else Pieces(s, sep)
  }

  /** g_strjoinv. */
  function Glue(ps: seq<string>, sep: string): string {
    if ps == [] then "" else if |ps| == 1 then ps[0] else ps[0] + sep + Glue(ps[1..], sep)
  }

  lemma GlueCons(p: string, ps: seq<string>, sep: string)
    requires ps != []
    ensures Glue([p] + ps, sep) == p + sep + Glue(ps, sep)
  {
    assert ([p] + ps)[1..] == ps;
  }

  /** What gluing means for no part, one part, and a part before others. */
  lemma GlueLaw(p: string, ps: seq<string>, sep: string)
    ensures Glue([], sep) == "" && Glue([p], sep) == p
    ensures ps != [] ==> Glue([p] + ps, sep) == p + sep + Glue(ps, sep)
  {
    if ps != [] { GlueCons(p, ps, sep); }
  }

  lemma CutAt(s: string, k: nat, sep: string)
    requires k <= |s| && HasPrefix(s[k..], sep)
    ensures s == s[..k] + sep + s[k + |sep|..]
  {
    assert s[k..k + |sep|] == s[k..][..|sep|];
    assert s == s[..k] + s[k..k + |sep|] + s[k + |sep|..];
  }

  /** Gluing the pieces back gives the string, for every separator. */
  lemma {:induction false} GluePieces(s: string, sep: string)
    requires sep != ""
    ensures Glue(Pieces(s, sep), sep) == s
    decreases |s|
  {
    var k := Find(s, sep);
    if k < |s| {
      var rest := s[k + |sep|..];
      GluePieces(rest, sep);
      GlueCons(s[..k], Pieces(rest, sep), sep);
      CutAt(s, k, sep);
    } else {
      assert Pieces(s, sep) == [s];
    }
  }

  lemma GlueSplit(s: string, sep: string)
    requires sep != ""
    ensures Glue(Split(s, sep), sep) == s
  {
    GluePieces(s, sep);
  }

  predicate Free(s: string, c: char) {
    c !in s
  }

  lemma OccursAt(s: string, i: nat, c: char)
    requires i < |s|
    ensures HasPrefix(s[i..], [c]) <==> s[i] == c
  {
    assert s[i..][..1] == [s[i]];
  }

  lemma PrefixHead(s: string, sep: string)
    requires sep != "" && HasPrefix(s, sep)
    ensures s != "" && s[0] == sep[0]
  {
    assert s[..|sep|][0] == sep[0];
  }

  /** A separator whose first byte does not occur in a is first found right after a. */
  lemma FindAfter(a: string, sep: string, rest: string)
    requires sep != "" && Free(a, sep[0])
    ensures Find(a + sep + rest, sep) == |a|
  {
    var s := a + sep + rest;
    forall i | 0 <= i < |a| ensures !HasPrefix(s[i..], sep) {
      assert s[i..][0] == a[i];
      if HasPrefix(s[i..], sep) { PrefixHead(s[i..], sep); }
    }
    assert s[|a|..] == sep + rest;
    var k := Find(s, sep);
    assert HasPrefix(s[|a|..], sep);
    assert k <= |a|;
  }

  lemma FindNone(a: string, c: char)
    requires Free(a, c)
    ensures Find(a, [c]) == |a|
  {
    forall i | 0 <= i < |a| ensures !HasPrefix(a[i..], [c]) {
      OccursAt(a, i, c);
    }
  }

  lemma {:induction false} PiecesOfGlue(ps: seq<string>, c: char)
    requires ps != [] && forall i :: 0 <= i < |ps| ==> Free(ps[i], c)
    ensures Pieces(Glue(ps, [c]), [c]) == ps
    decreases |ps|
  {
    if |ps| == 1 {
      FindNone(ps[0], c);
    } else {
      var rest := Glue(ps[1..], [c]);
      FindAfter(ps[0], [c], rest);
      PiecesOfGlue(ps[1..], c);
      var s := ps[0] + [c] + rest;
      assert s[..|ps[0]|] == ps[0];
      assert s[|ps[0]| + 1..] == rest;
    }
  }

  /** No piece contains a one-byte separator. */
  lemma {:induction false} PiecesAreFree(s: string, c: char)
    ensures forall i :: 0 <= i < |Pieces(s, [c])| ==> Free(Pieces(s, [c])[i], c)
    decreases |s|
  {
    var k := Find(s, [c]);
    forall i | 0 <= i < k ensures s[..k][i] != c {
      OccursAt(s, i, c);
    }
    if k < |s| {
      PiecesAreFree(s[k + 1..], c);
    } else {
      assert s[..k] == s;
    }
  }

  /**
   Splitting a glued list on a one-byte separator gives the list back exactly when no part
   contains the separator and the list is not the one whose only part is empty.
   */
  lemma {:induction false} SplitGlueIff(ps: seq<string>, c: char)
    ensures Split(Glue(ps, [c]), [c]) == ps
            <==> ps != [""] && forall i :: 0 <= i < |ps| ==> Free(ps[i], c)
  {
    var s := Glue(ps, [c]);
    if Split(s, [c]) == ps {
      PiecesAreFree(s, c);
    } else if (forall i :: 0 <= i < |ps| ==> Free(ps[i], c)) && ps != [] {
      PiecesOfGlue(ps, c);
      assert s == "";
      assert ps == [s];
    }
  }
}
