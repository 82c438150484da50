/** Finding the end of a header while it is being read: the loops of _request (src/net.c) and
    recv_header (src/net/util.c), which search only the new bytes and a small overlap. */
module HeaderEnd {
  import opened Reads

  const MAX_HEADER_SIZE: nat := 0x10_0000

  /** CRLFCRLF stands at position o. */
  predicate EndsAt(s: string, o: int) {
    0 <= o && o + 4 <= |s| && s[o] == '\r' && s[o + 1] == '\n' && s[o + 2] == '\r' && s[o + 3] == '\n'
  }

  /** o is where the header ends: the first CRLFCRLF. */
  ghost predicate HeaderEndsAt(s: string, o: int) {
    EndsAt(s, o) && forall p :: 0 <= p < o ==> !EndsAt(s, p)
  }

  /** memmem(s + from, n, "\r\n\r\n", 4), as an offset into s; -1 stands for NULL. */
  method Memmem(s: string, from: nat, n: nat) returns (o: int)
    requires from + n <= |s|
    ensures o == -1 ==> forall p :: from <= p && p + 4 <= from + n ==> !EndsAt(s, p)
    ensures o != -1 ==> from <= o && o + 4 <= from + n && EndsAt(s, o) && forall p :: from <= p < o ==> !EndsAt(s, p)
  {
    o := from;
    while o + 4 <= from + n
      invariant from <= o && forall p :: from <= p < o ==> !EndsAt(s, p)
    {
      if s[o] == '\r' && s[o + 1] == '\n' && s[o + 2] == '\r' && s[o + 3] == '\n' {
        return;
      }
      o := o + 1;
    }
    o := -1;
  }

  /** What a longer stream brings moves no header end. */
  lemma PrefixEnd(s: string, t: string, o: int)
    requires s <= t && o + 4 <= |s|
    ensures EndsAt(s, o) == EndsAt(t, o) && HeaderEndsAt(s, o) == HeaderEndsAt(t, o)
  {
    assert forall p :: p <= o ==> EndsAt(s, p) == EndsAt(t, p);
  }

  /** The loop of _request. It stops at the first read that completes a CRLFCRLF, and finds the first one of the
      whole stream, however the stream was cut. */
  method ReadResponseHeader(reads_: seq<string>) returns (a: string, end: int, used: nat)
    requires forall r :: r in reads_ ==> r != ""
    ensures used <= |reads_| && a == Joined(reads_[..used])
    ensures end == -1 ==> used == |reads_| && forall o :: !EndsAt(Joined(reads_), o)
    ensures end != -1 ==> HeaderEndsAt(Joined(reads_), end)
    ensures end != -1 ==> 0 < used && end + 4 <= |a| && |Joined(reads_[..used - 1])| < end + 4
  {
    a, end, used := "", -1, 0;
    while used < |reads_|
      invariant used <= |reads_| && a == Joined(reads_[..used]) && end == -1
      invariant forall o :: !EndsAt(a, o)
    {
      var r := reads_[used];
      ghost var before := a;
      var blen := |a|;
      a := a + r;
      used := used + 1;
      assert reads_[..used][..used - 1] == reads_[..used - 1];
      var offset := if blen >= 4 then 4 else blen;
      end := Memmem(a, blen - offset, |r| + offset);
      assert forall p :: p + 4 <= blen ==> EndsAt(a, p) == EndsAt(before, p);
      if end != -1 {
        JoinedPrefix(reads_, used);
        PrefixEnd(a, Joined(reads_), end);
        return;
      }
    }
    assert reads_[..used] == reads_;
  }

  datatype Received = Closed | TooLarge | Header(len: nat, end: nat)

  /** The bytes in hand when read k (counted from 0) begins. */
  function Before(reads_: seq<string>, k: nat): nat
    requires k <= |reads_|
  {
    |Joined(reads_[..k])|
  }

  /** Read k completes the header that ends at o, and the reads before it stay below the size limit. */
  ghost predicate CompletedBy(reads_: seq<string>, k: nat, o: int) {
    && k < |reads_| && HeaderEndsAt(Joined(reads_), o)
    && Before(reads_, k) < o + 4 <= Before(reads_, k + 1)
    && Before(reads_, k) < MAX_HEADER_SIZE
  }

  /** recv_header. A list that runs out stands for a read that returns no bytes. */
  method RecvHeader(reads_: seq<string>) returns (r: Received, used: nat)
    requires forall r :: r in reads_ ==> r != ""
    ensures used <= |reads_|
    ensures r == Closed ==> used == |reads_|
    // It gives up exactly after the read that reaches the size limit, unless that read brought a delimiter.
    ensures r == TooLarge ==> 0 < used && Before(reads_, used) >= MAX_HEADER_SIZE
    ensures used > 0 ==> Before(reads_, used - 1) < MAX_HEADER_SIZE
    ensures r == Closed ==> Before(reads_, used) < MAX_HEADER_SIZE
    ensures r.Header? ==> 0 < used && r.len == Before(reads_, used) && EndsAt(Joined(reads_), r.end)
    // A delimiter that starts in the first four bytes is missed when a read boundary there cuts it; no other is.
    ensures forall k: nat, o: int :: CompletedBy(reads_, k, o) ==>
      ((r.Header? && used == k + 1 && r.end == o) <==> !(o < Before(reads_, k) <= 4))
  {
    var buffer := "";
    var len := 0;
    used := 0;
    while used < |reads_|
      invariant used <= |reads_| && buffer == Joined(reads_[..used]) && len == |buffer|
      invariant len < MAX_HEADER_SIZE && (used > 0 ==> Before(reads_, used - 1) < MAX_HEADER_SIZE)
      invariant forall k: nat, o: int :: CompletedBy(reads_, k, o) && k < used ==> o < Before(reads_, k) <= 4
    {
      ghost var before := buffer;
      var n := |reads_[used]|;
      buffer := buffer + reads_[used];
      used := used + 1;
      assert reads_[..used][..used - 1] == reads_[..used - 1];
      var start := if len - 4 > 0 then len - 4 else len;
      var searchEnd := if len - 4 > 0 then n + 4 else n;
      var end := Memmem(buffer, start, searchEnd);
      JoinedPrefix(reads_, used);
      BoundariesGrow(reads_);
      forall k: nat, o: int | CompletedBy(reads_, k, o) && k + 1 == used
        ensures end == o <==> !(o < len <= 4)
      {
        PrefixEnd(buffer, Joined(reads_), o);
        assert end != -1 ==> EndsAt(Joined(reads_), end);
      }
      if end != -1 {
        PrefixEnd(buffer, Joined(reads_), end);
        return Header(len + n, end), used;
      }
      len := len + n;
      if len >= MAX_HEADER_SIZE {
        return TooLarge, used;
      }
    }
    r := Closed;
  }

  lemma BoundariesGrow(reads_: seq<string>)
    ensures forall j, k :: 0 <= j <= k <= |reads_| ==> Before(reads_, j) <= Before(reads_, k)
  {
    forall j, k | 0 <= j <= k <= |reads_|
      ensures Before(reads_, j) <= Before(reads_, k)
    {
      assert reads_[..k][..j] == reads_[..j];
      JoinedPrefix(reads_[..k], j);
    }
  }

  /** A delimiter at the very start, cut in the middle, is missed. */
  lemma CutAtTheStart()
    ensures var reads_ := ["\r\n", "\r\n"]; CompletedBy(reads_, 1, 0) && 0 < Before(reads_, 1) <= 4
  {
    var reads_ := ["\r\n", "\r\n"];
    assert reads_[..1] == ["\r\n"] && reads_[..2] == reads_ && reads_[..1][..0] == [];
    assert Joined(reads_[..1]) == "\r\n";
    assert Joined(reads_) == "\r\n\r\n";
  }
}
