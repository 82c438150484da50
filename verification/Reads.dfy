/** What a stream brings, read by read. */
module Reads {
  function Joined(reads_: seq<string>): string {
    if reads_ == [] then "" else Joined(reads_[..|reads_| - 1]) + reads_[|reads_| - 1]
  }

  lemma {:induction false} JoinedPrefix(reads_: seq<string>, k: nat)
    requires k <= |reads_|
    ensures Joined(reads_[..k]) <= Joined(reads_)
    decreases |reads_| - k
  {
    if k < |reads_| {
      JoinedPrefix(reads_, k + 1);
      assert reads_[..k + 1][..k] == reads_[..k];
    } else {
      assert reads_[..k] == reads_;
    }
  }

  lemma {:induction false} JoinedHead(reads_: seq<string>)
    requires reads_ != []
    ensures Joined(reads_) == reads_[0] + Joined(reads_[1..])
    decreases |reads_|
  {
    var n := |reads_| - 1;
    if n > 0 {
      JoinedHead(reads_[..n]);
      assert reads_[1..][..n - 1] == reads_[..n][1..];
    }
  }
}
