/**
 Receiving a response: the head is read byte by byte into a buffer that grows, the body is
 copied to the file in whatever chunks the transport delivers.
 */
module Http {
  import opened Seqs
  import opened CStrings

  const INT_MAX: int := 0x7fff_ffff

  // ----- Where the head ends -----

  /** Position j holds a line feed, and only CRs stand between it and position i. */
  predicate FeedBefore(s: seq<char>, j: nat, i: nat) {
    j < i <= |s| && s[j] == '\n' && forall k :: j < k < i ==> s[k] == '\r'
  }

  /** A line feed whose nearest earlier byte other than CR is also a line feed. */
  ghost predicate EndsHead(s: seq<char>, i: nat) {
    i < |s| && s[i] == '\n' && exists j: nat :: FeedBefore(s, j, i)
  }

  ghost function FirstEnd(s: seq<char>, from: nat): (k: nat)
    requires from <= |s|
    ensures from <= k <= |s|
    ensures k < |s| ==> EndsHead(s, k)
    ensures forall i :: from <= i < k ==> !EndsHead(s, i)
    decreases |s| - from
  {
    if from == |s| || EndsHead(s, from) then from else FirstEnd(s, from + 1)
  }

  /** The position of the first end of head, or the length of a stream that has none. */
  ghost function HeadEnd(s: seq<char>): (k: nat)
    ensures k <= |s|
  {
    FirstEnd(s, 0)
  }

  lemma HeadEndIs(s: seq<char>, k: nat)
    requires k <= |s|
    requires k < |s| ==> EndsHead(s, k)
    requires forall i :: 0 <= i < k ==> !EndsHead(s, i)
    ensures HeadEnd(s) == k
  {
  }

  /** What is left after the end of head; nothing when there is no end. */
  ghost function Body(s: seq<char>): seq<char> {
    s[Min(HeadEnd(s) + 1, |s|)..]
  }

  function StripCR(s: seq<char>): seq<char> {
    if s == [] then []
    else
      var last := s[|s| - 1];
      StripCR(s[..|s| - 1]) + if last == '\r' then [] else [last]
  }

  lemma StripNext(s: seq<char>, k: nat)
    requires k < |s|
    ensures StripCR(s[..k + 1]) == if s[k] == '\r' then StripCR(s[..k]) else StripCR(s[..k]) + [s[k]]
  {
    assert s[..k + 1][..k] == s[..k];
  }

  /** These are the bytes at these positions, in order. */
  predicate BytesAt(s: seq<char>, ks: seq<nat>, bytes: seq<char>) {
    |ks| == |bytes| && forall j :: 0 <= j < |ks| ==> ks[j] < |s| && bytes[j] == s[ks[j]]
  }

  lemma BytesAtMore(s: seq<char>, n: nat, ks: seq<nat>, bytes: seq<char>)
    requires n < |s| && BytesAt(s[..n], ks, bytes)
    ensures BytesAt(s, ks, bytes) && BytesAt(s, ks + [n], bytes + [s[n]])
  {
  }

  /** What is kept is every byte that is not a CR, once and in order. */
  lemma {:induction false} KeptBytes(s: seq<char>) returns (ks: seq<nat>)
    ensures Increasing(ks) && BytesAt(s, ks, StripCR(s))
    ensures forall k :: k in ks <==> 0 <= k < |s| && s[k] != '\r'
  {
    hide Increasing, BytesAt;
    if s == [] {
      ks := [];
      NoBytes();
    } else {
      var n := |s| - 1;
      ks := KeptBytes(s[..n]);
      BytesAtMore(s, n, ks, StripCR(s[..n]));
      assert StripCR(s[..n]) + [] == StripCR(s[..n]);
      if s[n] != '\r' {
        SnocIncreasing(ks, n);
        ks := ks + [n];
      }
    }
  }

  lemma NoBytes()
    ensures Increasing([]) && BytesAt([], [], [])
  {
  }

  lemma {:induction false} LastKept(s: seq<char>)
    ensures |StripCR(s)| <= |s|
    ensures (StripCR(s) != [] && StripCR(s)[|StripCR(s)| - 1] == '\n') <==> exists j: nat :: FeedBefore(s, j, |s|)
  {
    if s != [] {
      var n := |s| - 1;
      LastKept(s[..n]);
      if s[n] == '\r' {
        assert forall j: nat :: j < n ==> (FeedBefore(s[..n], j, n) <==> FeedBefore(s, j, |s|));
      } else if s[n] == '\n' {
        assert FeedBefore(s, n, |s|);
      } else {
        forall j: nat | j < n ensures !FeedBefore(s, j, |s|) {
          assert s[n] != '\r';
        }
      }
    }
  }

  /** After storing the CR-free part of s, a line feed comes next: does it end the head? */
  lemma EndsAfter(s: seq<char>, k: nat)
    requires k < |s|
    ensures var kept := StripCR(s[..k]);
            EndsHead(s, k) <==> s[k] == '\n' && kept != [] && kept[|kept| - 1] == '\n'
  {
    LastKept(s[..k]);
    assert forall j: nat :: FeedBefore(s[..k], j, k) <==> FeedBefore(s, j, k);
  }

  // ----- The transport and the file -----

  /** A connection that will deliver the given bytes and then end, in chunks of its choosing. */
  class Tcp {
    const stream: seq<char>
    var pos: nat

    ghost predicate Valid()
      reads this
    {
      pos <= |stream|
    }

    ghost function Rest(): seq<char>
      requires Valid()
      reads this
    {
      stream[pos..]
    }

    constructor (stream: seq<char>)
      ensures Valid() && this.stream == stream && Rest() == stream
    {
      this.stream := stream;
      pos := 0;
    }

    /** Any number of bytes from one up to the room there is; zero only at the end. */
    method Read(buf: array<char>, off: nat, size: nat) returns (n: nat)
      requires Valid() && 0 < size && off + size <= buf.Length
      modifies this, buf
      ensures Valid() && n <= size && n <= |old(Rest())|
      ensures n == 0 <==> old(Rest()) == []
      ensures Rest() == old(Rest())[n..]
      ensures buf[off..off + n] == old(Rest())[..n]
      ensures buf[..off] == old(buf[..off]) && buf[off + n..] == old(buf[off + n..])
    {
      var left := |stream| - pos;
      if left == 0 {
        return 0;
      }
      n :| 1 <= n <= left && n <= size;
      forall i | 0 <= i < n {
        buf[off + i] := stream[pos + i];
      }
      pos := pos + n;
    }
  }

  class File {
    var contents: seq<char>

    constructor ()
      ensures contents == []
    {
      contents := [];
    }

    /** A write that the operating system completes. */
    method Write(buf: array<char>, n: nat)
      requires n <= buf.Length
      modifies this
      ensures contents == old(contents) + buf[..n]
    {
      contents := contents + buf[..n];
    }
  }

  // ----- Reading the head -----

  /** The size of the head buffer after n stored bytes. */
  function BufferSize(n: nat): nat {
    1024 + 256 * (n * (n + 1))
  }

  lemma BufferSizeGrows(n: nat)
    ensures BufferSize(n) + (n + 1) * 512 == BufferSize(n + 1)
    ensures n + 1 + 10 < BufferSize(n)
  {
    assert (n + 1) * (n + 2) == n * (n + 1) + 2 * (n + 1);
    assert n * (n + 1) >= n;
  }

  /** The size fits a signed 32-bit int exactly up to 2895 stored bytes. */
  lemma BufferSizeFitsIff(n: nat)
    ensures BufferSize(n) <= INT_MAX <==> n <= 2895
  {
    if n <= 2895 {
      ProductGrows(n, 2895);
    } else {
      ProductGrows(2896, n);
    }
  }

  lemma ProductGrows(a: nat, b: nat)
    requires a <= b
    ensures a * (a + 1) <= b * (b + 1)
  {
    assert b * (b + 1) - a * (a + 1) == (b - a) * (a + b + 1);
  }

  datatype HeadResult = HeadRead | SizeOverflow

  class Http {
    var headerBufLen: int
    var headerBufCurLen: int
    var headerBuf: array<char>

    /** Line 21, and the allocation on line 117. */
    constructor ()
      ensures headerBufLen == 1024 && headerBufCurLen == 0
      ensures headerBuf.Length == 1024 && fresh(headerBuf)
    {
      headerBufLen := 1024;
      headerBufCurLen := 0;
      headerBuf := new char[1024](_ => NUL);
    }

    /** The buffer after n stored bytes, the growth for each of them included. */
    ghost predicate Holds(kept: seq<char>)
      reads this, headerBuf
    {
      && headerBufCurLen == |kept|
      && headerBufLen == headerBuf.Length == BufferSize(|kept|)
      && |kept| < headerBuf.Length
      && headerBuf[..|kept|] == kept
    }

    /** Lines 137-147: the buffer grows when there is room left, which there always is. */
    method Grow(step: int, ghost kept: seq<char>) returns (ok: bool)
      requires step == |kept| && kept != []
      requires headerBufCurLen == |kept| && headerBufLen == headerBuf.Length == BufferSize(|kept| - 1)
      requires |kept| <= headerBuf.Length && headerBuf[..|kept|] == kept
      modifies this
      ensures ok <==> |kept| <= 2895
      ensures if ok then Holds(kept) && fresh(headerBuf) else headerBuf == old(headerBuf)
    {
      BufferSizeGrows(|kept| - 1);
      BufferSizeFitsIff(|kept|);
      if headerBufCurLen + 10 < headerBufLen {
        var len := headerBufLen + step * 512;
        if len > INT_MAX {
          return false;
        }
        headerBuf := Realloc(headerBuf, len);
        headerBufLen := len;
      }
      return true;
    }

    /** Line 123: one byte into the first free place. */
    method ReadByte(tcp: Tcp, ghost kept: seq<char>) returns (got: nat)
      requires tcp.Valid() && Holds(kept)
      modifies headerBuf, tcp
      ensures tcp.Valid() && Holds(kept)
      ensures got == 0 <==> old(tcp.Rest()) == []
      ensures got == 0 ==> tcp.Rest() == []
      ensures got != 0 ==>
                && tcp.Rest() == old(tcp.Rest())[1..]
                && headerBuf[headerBufCurLen] == old(tcp.Rest())[0]
                && headerBuf[..|kept| + 1] == kept + [old(tcp.Rest())[0]]
    {
      got := tcp.Read(headerBuf, headerBufCurLen, 1);
      assert headerBuf[..|kept|] == kept;
      if got != 0 {
        assert headerBuf[headerBufCurLen] == headerBuf[headerBufCurLen..headerBufCurLen + 1][0];
      }
    }

    /** Lines 123-147: one turn of the loop, for the text kept so far. */
    method Turn(tcp: Tcp, step: int, ghost kept: seq<char>) returns (t: Turned)
      requires tcp.Valid() && Holds(kept) && step == |kept| + 1
      modifies this, headerBuf, tcp
      ensures tcp.Valid() && (headerBuf == old(headerBuf) || fresh(headerBuf))
      ensures t.Ended? <==> old(tcp.Rest()) == []
      ensures t.Ended? ==> tcp.Rest() == [] && Holds(kept)
      ensures !t.Ended? ==>
                && tcp.Rest() == old(tcp.Rest())[1..]
                && t == TurnFor(kept, old(tcp.Rest())[0])
                && (t.Skipped? || t.Blank? ==> Holds(kept))
                && (t.Stored? ==> Holds(kept + [old(tcp.Rest())[0]]))
    {
      hide BufferSize, Tcp.Valid, Tcp.Rest;
      var got := ReadByte(tcp, kept);
      if got == 0 {
        return Ended;
      }
      if headerBuf[headerBufCurLen] == '\r' {
        return Skipped;
      } else if headerBuf[headerBufCurLen] == '\n'
           && headerBufCurLen > 0 && headerBuf[headerBufCurLen - 1] == '\n' {
        return Blank;
      }
      headerBufCurLen := headerBufCurLen + 1;
      var ok := Grow(step, kept + [old(tcp.Rest())[0]]);
      return if ok then Stored else Overflowed;
    }

    /** Line 149. */
    method Terminate(ghost kept: seq<char>)
      requires Holds(kept)
      modifies headerBuf
      ensures Terminated(kept)
    {
      headerBuf[headerBufCurLen] := NUL;
    }

    /** The buffer holds the text kept and a NUL behind it. */
    ghost predicate Terminated(kept: seq<char>)
      reads this, headerBuf
    {
      Holds(kept) && headerBuf[|kept|] == NUL
    }

    /** Line 122: nothing stored yet. */
    method Start()
      requires headerBufLen == 1024 && headerBuf.Length == 1024
      modifies this
      ensures headerBuf == old(headerBuf) && Holds([])
    {
      headerBufCurLen := 0;
    }

    /**
     Lines 122-149. Unless the buffer's size outgrows an int, the loop stops just after the
     first end of head, having stored the CR-free text before it and a NUL.
     */
    method ReadHead(tcp: Tcp) returns (r: HeadResult)
      requires tcp.Valid() && headerBufLen == 1024 && headerBuf.Length == 1024
      modifies this, headerBuf, tcp
      ensures tcp.Valid()
      ensures var s := old(tcp.Rest());
              var kept := StripCR(s[..HeadEnd(s)]);
              && (r.HeadRead? <==> |kept| <= 2895)
              && (r.HeadRead? ==> Terminated(kept) && tcp.Rest() == Body(s))
      ensures headerBuf == old(headerBuf) || fresh(headerBuf)
    {
      hide *;
      ghost var s := tcp.Rest();
      ghost var k, kept := 0, [];
      StripNone();
      BodyAt(s);
      var step := 1;
      Start();
      while true
        invariant tcp.Valid() && k <= |s| && tcp.Rest() == s[k..]
        invariant headerBuf == old(headerBuf) || fresh(headerBuf)
        invariant kept == StripCR(s[..k]) && |kept| <= 2895
        invariant Holds(kept) && step == |kept| + 1
        invariant forall i :: 0 <= i < k ==> !EndsHead(s, i)
        decreases |s| - k
      {
        var t := Turn(tcp, step, kept);
        if t == Ended {
          HeadEndIs(s, k);
          break;
        }
        TurnMeans(s, k);
        if t == Blank {
          HeadEndIs(s, k);
          break;
        } else if t == Overflowed {
          KeptBeyond(s, k + 1);
          return SizeOverflow;
        } else if t == Stored {
          kept := kept + [s[k]];
          step := step + 1;
        }
        k := k + 1;
      }
      Terminate(kept);
      return HeadRead;
    }
  }

  /** What a turn makes of byte k, in terms of the text kept and the end of head. */
  lemma TurnMeans(s: seq<char>, k: nat)
    requires k < |s|
    ensures s[k..] != [] && s[k..][0] == s[k] && s[k..][1..] == s[k + 1..]
    ensures var kept := StripCR(s[..k]);
            var t := TurnFor(kept, s[k]);
            && (t.Blank? <==> EndsHead(s, k)) && !t.Ended?
            && (t.Skipped? ==> StripCR(s[..k + 1]) == kept)
            && (t.Stored? || t.Overflowed? ==> StripCR(s[..k + 1]) == kept + [s[k]])
            && (t.Stored? ==> |kept| + 1 <= 2895)
            && (t.Overflowed? ==> |kept| + 1 > 2895)
  {
    StripNext(s, k);
    EndsAfter(s, k);
    hide StripCR, EndsHead;
  }

  datatype Turned = Ended | Skipped | Blank | Stored | Overflowed

  /** What one turn makes of the next byte. */
  function TurnFor(kept: seq<char>, c: char): Turned {
    if c == '\r' then Skipped
    else if c == '\n' && kept != [] && kept[|kept| - 1] == '\n' then Blank
    else if |kept| < 2895 then Stored
    else Overflowed
  }

  lemma BodyAt(s: seq<char>)
    ensures var k := HeadEnd(s); Body(s) == if k < |s| then s[k + 1..] else s[k..]
  {
    hide HeadEnd;
  }

  lemma StripNone()
    ensures StripCR([]) == []
  {
  }

  /** Text kept before a position that no end of head precedes is kept for good. */
  lemma KeptBeyond(s: seq<char>, k: nat)
    requires k <= |s| && forall i :: 0 <= i < k ==> !EndsHead(s, i)
    ensures |StripCR(s[..k])| <= |StripCR(s[..HeadEnd(s)])|
  {
    assert !(HeadEnd(s) < k);
    KeptGrows(s, k, HeadEnd(s));
  }

  lemma {:induction false} KeptGrows(s: seq<char>, i: nat, j: nat)
    requires i <= j <= |s|
    ensures |StripCR(s[..i])| <= |StripCR(s[..j])|
    decreases j
  {
    if i < j {
      assert s[..j][..j - 1] == s[..j - 1];
      KeptGrows(s, i, j - 1);
    }
  }

  /** g_realloc to a larger size. */
  method Realloc(buf: array<char>, len: nat) returns (r: array<char>)
    requires buf.Length <= len
    ensures fresh(r) && r.Length == len && r[..buf.Length] == buf[..]
  {
    r := new char[len];
    forall i | 0 <= i < buf.Length {
      r[i] := buf[i];
    }
  }

  // ----- Copying the body -----

  /** Lines 195-205: one turn of the loop moves what one read delivers. */
  method CopyChunk(tcp: Tcp, file: File, buf: array<char>) returns (ret: nat)
    requires tcp.Valid() && buf.Length == 1024
    modifies tcp, file, buf
    ensures tcp.Valid() && ret <= |old(tcp.Rest())| && (ret == 0 <==> old(tcp.Rest()) == [])
    ensures tcp.Rest() == old(tcp.Rest())[ret..]
    ensures file.contents == old(file.contents) + old(tcp.Rest())[..ret]
  {
    forall i | 0 <= i < 1024 {
      buf[i] := NUL;
    }
    ret := tcp.Read(buf, 0, 1023);
    if ret > 0 {
      assert buf[..ret] == buf[0..0 + ret];
      file.Write(buf, ret);
    }
  }

  lemma Moved(done: seq<char>, rest: seq<char>, n: nat)
    requires n <= |rest|
    ensures (done + rest[..n]) + rest[n..] == done + rest
  {
  }

  /** Lines 194-206: all that is left reaches the file, however it is chunked. */
  method CopyBody(tcp: Tcp, file: File)
    requires tcp.Valid()
    modifies tcp, file
    ensures tcp.Valid() && tcp.Rest() == []
    ensures file.contents == old(file.contents) + old(tcp.Rest())
  {
    hide Tcp.Rest, Tcp.Valid;
    var buf := new char[1024](_ => NUL);
    ghost var goal := file.contents + tcp.Rest();
    while true
      invariant tcp.Valid() && file.contents + tcp.Rest() == goal
      decreases |tcp.Rest()|
    {
      ghost var done, rest := file.contents, tcp.Rest();
      var ret := CopyChunk(tcp, file, buf);
      if ret == 0 {
        break;
      }
      Moved(done, rest, ret);
    }
  }

  /**
   The file that results depends only on the bytes delivered, not on how the transport cuts
   them into chunks: it is what follows the first end of head.
   */
  method Receive(stream: seq<char>) returns (http: Http, file: File, r: HeadResult)
    ensures r.HeadRead? <==> |StripCR(stream[..HeadEnd(stream)])| <= 2895
    ensures r.HeadRead? ==>
              && file.contents == Body(stream)
              && http.Holds(StripCR(stream[..HeadEnd(stream)]))
  {
    hide StripCR, HeadEnd, Body, Http.Holds;
    http := new Http();
    file := new File();
    var tcp := new Tcp(stream);
    r := http.ReadHead(tcp);
    if r.HeadRead? {
      CopyBody(tcp, file);
    }
  }
}
