/** The per-client nonce allocator of encrypted responses: what it hands out over a whole run. */
module KvencNonce {
  import opened Bytes
  import opened Kvenc

  /** The script's new value. */
  function Next(last: int, now: int): (nonce: int)
    ensures nonce > last && nonce >= now
  {
    if last >= now then last + 1 else now
  }

  /** The stored nonces, one per client; a client never seen counts as 0. */
  class NonceStore {
    var nonces: map<string, int>

    constructor ()
      ensures nonces == map[]
    {
      nonces := map[];
    }

    function Last(client: string): (n: int)
      reads this
    {
      if client in nonces then nonces[client] else 0
    }

    method NextKvencNonce(client: string, clock: int) returns (nonce: int)
      modifies this
      ensures nonce == Next(old(Last(client)), clock)
      ensures nonces == old(nonces)[client := nonce]
    {
      var now := clock;
      var last := if client in nonces then nonces[client] else 0;
      if last >= now {
        now := last + 1;
      }
      nonces := nonces[client := now];
      nonce := now;
    }

    /** A run of allocations for any clients in any order, with any clock readings. */
    method Serve(calls: seq<(string, int)>) returns (out: seq<int>)
      modifies this
      ensures |out| == |calls|
      ensures forall k | 0 <= k < |calls| ::
                out[k] == Allocated(old(Last(calls[k].0)), ClocksOf(calls[..k + 1], calls[k].0))
      ensures forall c: string :: Last(c) == Allocated(old(Last(c)), ClocksOf(calls, c))
    {
      hide Next, Allocated, ClocksOf;
      out := [];
      NoCalls();
      for i := 0 to |calls|
        invariant |out| == i
        invariant forall c: string :: Last(c) == Allocated(old(Last(c)), ClocksOf(calls[..i], c))
        invariant forall k | 0 <= k < i ::
                    out[k] == Allocated(old(Last(calls[k].0)), ClocksOf(calls[..k + 1], calls[k].0))
      {
        var nonce := NextKvencNonce(calls[i].0, calls[i].1);
        out := out + [nonce];
        forall c: string ensures Last(c) == Allocated(old(Last(c)), ClocksOf(calls[..i + 1], c)) {
          OneMoreCall(calls, i, c, old(Last(c)));
        }
      }
      assert calls[..|calls|] == calls;
    }
  }

  /** The clock readings of one client's calls, in order. */
  function ClocksOf(calls: seq<(string, int)>, client: string): (clocks: seq<int>)
  {
    if calls == [] then []
    else
      var front, call := ClocksOf(calls[..|calls| - 1], client), calls[|calls| - 1];
      if call.0 == client then front + [call.1] else front
  }

  lemma NoCalls()
    ensures forall c: string, last0 :: Allocated(last0, ClocksOf([], c)) == last0
  {}

  /** A call allocates for its own client, and for no other. */
  lemma OneMoreCall(calls: seq<(string, int)>, i: nat, client: string, last0: int)
    requires i < |calls|
    ensures var before := Allocated(last0, ClocksOf(calls[..i], client));
            Allocated(last0, ClocksOf(calls[..i + 1], client))
            == if calls[i].0 == client then Next(before, calls[i].1) else before
  {
    hide Next;
    assert calls[..i + 1][..i] == calls[..i];
    var clocks := ClocksOf(calls[..i], client);
    assert (clocks + [calls[i].1])[..|clocks|] == clocks;
  }

  /** The nonce stored after one allocation for each clock reading. */
  function Allocated(last0: int, clocks: seq<int>): (nonce: int)
  {
    if clocks == [] then last0
    else Next(Allocated(last0, clocks[..|clocks| - 1]), clocks[|clocks| - 1])
  }

  /** The candidates of the closed form: the stored start advanced n times, and reading i advanced n - i times. */
  function Candidate(last0: int, clocks: seq<int>, i: nat): (c: int)
    requires i <= |clocks|
  {
    if i == 0 then last0 + |clocks| else clocks[i - 1] + (|clocks| - i)
  }

  /** The n-th nonce is the greatest candidate. */
  lemma {:induction false} ClosedForm(last0: int, clocks: seq<int>)
    ensures forall i | 0 <= i <= |clocks| :: Candidate(last0, clocks, i) <= Allocated(last0, clocks)
    ensures exists i | 0 <= i <= |clocks| :: Candidate(last0, clocks, i) == Allocated(last0, clocks)
  {
    var n := |clocks|;
    if n == 0 {
      assert Candidate(last0, clocks, 0) == Allocated(last0, clocks);
    } else {
      var before := clocks[..n - 1];
      ClosedForm(last0, before);
      forall i | 0 <= i < n ensures Candidate(last0, clocks, i) == Candidate(last0, before, i) + 1 {}
      var k :| 0 <= k <= n - 1 && Candidate(last0, before, k) == Allocated(last0, before);
      if Allocated(last0, before) >= clocks[n - 1] {
        assert Candidate(last0, clocks, k) == Allocated(last0, clocks);
      } else {
        assert Candidate(last0, clocks, n) == Allocated(last0, clocks);
      }
    }
  }

  /** Later nonces are greater, whatever the clock does. */
  lemma {:induction false} Increasing(last0: int, clocks: seq<int>, i: nat, j: nat)
    requires i < j <= |clocks|
    ensures Allocated(last0, clocks[..i]) < Allocated(last0, clocks[..j])
    decreases j
  {
    assert clocks[..j][..j - 1] == clocks[..j - 1];
    if i < j - 1 {
      Increasing(last0, clocks, i, j - 1);
    }
  }

  /** In a whole run no HMAC input serves two responses, nor two blocks of one. */
  lemma NoInputReused(last0: int, clocks: seq<int>, i: nat, j: nat, c: byte, d: byte)
    requires 0 < i <= j <= |clocks| && (i < j || c != d)
    requires 0 <= Allocated(last0, clocks[..i]) < 0x1_0000_0000 && 0 <= Allocated(last0, clocks[..j]) < 0x1_0000_0000
    ensures BlockInput(Allocated(last0, clocks[..i]), c) != BlockInput(Allocated(last0, clocks[..j]), d)
  {
    if i < j {
      Increasing(last0, clocks, i, j);
    }
    if BlockInput(Allocated(last0, clocks[..i]), c) == BlockInput(Allocated(last0, clocks[..j]), d) {
      BlockInputInjective(Allocated(last0, clocks[..i]), c, Allocated(last0, clocks[..j]), d);
    }
  }

  const CLOCK_DRIFT_SECONDS := 300

  predicate WithinDrift(now: int, ts: int)
  {
    (if now >= ts then now - ts else ts - now) <= CLOCK_DRIFT_SECONDS
  }

  /** The client's drift check passes exactly when no burst ran more than 300 ahead of the clock. */
  lemma DriftPassesIff(last0: int, clocks: seq<int>)
    requires clocks != []
    ensures var now := clocks[|clocks| - 1];
            WithinDrift(now, Allocated(last0, clocks)) <==>
            last0 + |clocks| <= now + 300
            && forall i | 0 <= i < |clocks| :: |clocks| - 1 - i <= (now - clocks[i]) + 300
  {
    ClosedForm(last0, clocks);
    var n, now := |clocks|, clocks[|clocks| - 1];
    assert Allocated(last0, clocks) >= now;
    assert Candidate(last0, clocks, 0) == last0 + n;
    forall i | 0 <= i < n ensures clocks[i] + (n - 1 - i) <= Allocated(last0, clocks) {
      assert Candidate(last0, clocks, i + 1) == clocks[i] + (n - 1 - i);
    }
    var k :| 0 <= k <= n && Candidate(last0, clocks, k) == Allocated(last0, clocks);
    assert k > 0 ==> Candidate(last0, clocks, k) == clocks[k - 1] + (n - k);
  }
}
