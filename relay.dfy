/** The chaos relay (internal/proxy/copy.go): the loop that reads chunks from one side
    of a proxied connection and writes them to the other, dropping some and delaying
    the rest as the current chaos settings say.

    The connection, the random number generator and the lock-protected settings are
    replaced by an `Oracle`: for the k-th read, what the read returned, the settings
    `GetChaos` returned for it, the two random draws, and what the write returned. */
module Relay {
  import opened Wrappers
  import opened Strings
  import opened Io
  import opened State

  /** The size of the buffer the loop reads into, 32 KiB. */
  const ChunkSize: nat := 32 * 1024

  /** The two `rand.Float64` draws taken for a chunk, each in [0, 1). */
  datatype Draw = Draw(drop: real, jitter: real)

  datatype Oracle = Oracle(
    results: seq<ReadResult>,
    chaos: seq<Chaos>,
    draws: seq<Draw>,
    writeErrs: seq<Option<IoError>>)

  /** One read per index; a read fills at most the 32 KiB buffer; the settings are
      ones `HavocState` can hold; the draws are those `rand.Float64` can return. */
  predicate WellFormed(o: Oracle) {
    && |o.chaos| == |o.results| && |o.draws| == |o.results| && |o.writeErrs| == |o.results|
    && (forall k :: 0 <= k < |o.results| ==> |o.results[k].data| <= ChunkSize)
    && (forall k :: 0 <= k < |o.chaos| ==> InRange(o.chaos[k]))
    && (forall k :: 0 <= k < |o.draws| ==> 0.0 <= o.draws[k].drop < 1.0 && 0.0 <= o.draws[k].jitter < 1.0)
  }

  /** A chunk written to the destination: which read it came from, its bytes, and the
      delay slept before the write (no sleep when it is 0). */
  datatype Write = Write(index: nat, data: seq<byte>, delay: int)

  /** How the loop ended: `Copy` returned this error (`None` for Go's nil), or the
      oracle ran out of reads while the loop was still going. */
  datatype Outcome = Returned(err: Option<IoError>) | Exhausted

  /** Everything `Copy` did: its writes in order, how it ended, and how many reads it made. */
  datatype Trace = Trace(writes: seq<Write>, outcome: Outcome, readsDone: nat)

  /** The drop test: only a positive drop rate can drop, and then when the draw falls below it. */
  predicate Dropped(c: Chaos, d: Draw) {
    c.dropRate > 0.0 && d.drop < c.dropRate
  }

  /** The random part of the delay: the jitter scaled by the draw, truncated to a whole
      number of nanoseconds; none when the jitter is not positive. */
  function Variance(c: Chaos, d: Draw): int {
    if c.jitter > 0 then (d.jitter * c.jitter as real).Floor else 0
  }

  function Delay(c: Chaos, d: Draw): int {
    c.latency + Variance(c, d)
  }

  /** What `Copy` does with a read error once the chunk is dealt with: carry on
      (`None`), or return nil for end of stream and the error itself otherwise. */
  function ReadVerdict(err: Option<IoError>): Option<Option<IoError>> {
    match err
    case None => None
    case Some(EOF) => Some(None)
    case Some(e) => Some(Some(e))
  }

  /** The trace of the loop from the k-th read on, with earlier writes not included. */
  function RelayFrom(o: Oracle, k: nat): (t: Trace)
    requires WellFormed(o) && k <= |o.results|
    ensures k <= t.readsDone <= |o.results|
    decreases |o.results| - k
  {
    if k == |o.results| then Trace([], Exhausted, k)
    else
      var r := o.results[k];
      if |r.data| > 0 && Dropped(o.chaos[k], o.draws[k]) then RelayFrom(o, k + 1)
      else
        var written := if |r.data| > 0 then [Write(k, r.data, Delay(o.chaos[k], o.draws[k]))] else [];
        if |r.data| > 0 && o.writeErrs[k].Some? then Trace(written, Returned(o.writeErrs[k]), k + 1)
        else
          match ReadVerdict(r.err)
          case Some(e) => Trace(written, Returned(e), k + 1)
          case None => Prepend(written, RelayFrom(o, k + 1))
  }

  /** One read of `RelayFrom`, case by case, as the loop body meets them. */
  lemma RelayStep(o: Oracle, k: nat)
    requires WellFormed(o) && k < |o.results|
    ensures var r := o.results[k];
      var w := Write(k, r.data, Delay(o.chaos[k], o.draws[k]));
      && (|r.data| > 0 && Dropped(o.chaos[k], o.draws[k]) ==> RelayFrom(o, k) == RelayFrom(o, k + 1))
      && (|r.data| > 0 && !Dropped(o.chaos[k], o.draws[k]) && o.writeErrs[k].Some? ==>
            RelayFrom(o, k) == Trace([w], Returned(o.writeErrs[k]), k + 1))
      && (|r.data| > 0 && !Dropped(o.chaos[k], o.draws[k]) && o.writeErrs[k].None? ==>
            RelayFrom(o, k) == AfterRead([w], o, k))
      && (|r.data| == 0 ==> RelayFrom(o, k) == AfterRead([], o, k))
  {
  }

  /** The trace once the k-th chunk has been dealt with (its writes `ws`): the read
      error decides whether the loop returns or goes on. */
  function AfterRead(ws: seq<Write>, o: Oracle, k: nat): Trace
    requires WellFormed(o) && k < |o.results|
  {
    match ReadVerdict(o.results[k].err)
    case Some(e) => Trace(ws, Returned(e), k + 1)
    case None => Prepend(ws, RelayFrom(o, k + 1))
  }

  function Prepend(ws: seq<Write>, t: Trace): Trace {
    t.(writes := ws + t.writes)
  }

  // ----- the loop -----

  /** `src.Read(buf)`: the k-th read puts its bytes at the front of the buffer. */
  method Receive(buf: array<byte>, r: ReadResult) returns (n: nat, err: Option<IoError>)
    requires |r.data| <= buf.Length
    modifies buf
    ensures n == |r.data| && buf[..n] == r.data && err == r.err
  {
    forall i | 0 <= i < |r.data| {
      buf[i] := r.data[i];
    }
    n, err := |r.data|, r.err;
  }

  /** `Copy`: reads into one reused 32 KiB buffer until a read or a write fails. */
  method Copy(o: Oracle) returns (t: Trace)
    requires WellFormed(o)
    ensures t == RelayFrom(o, 0)
  {
    var buf := new byte[ChunkSize];
    var written: seq<Write> := [];
    var k := 0;
    while k < |o.results|
      invariant 0 <= k <= |o.results|
      invariant Prepend(written, RelayFrom(o, k)) == RelayFrom(o, 0)
      decreases |o.results| - k
    {
      RelayStep(o, k);
      var read, readErr := Receive(buf, o.results[k]);
      if read > 0 {
        var settings := o.chaos[k];
        if settings.dropRate > 0.0 && o.draws[k].drop < settings.dropRate {
          k := k + 1;
          continue;
        }
        var delay := settings.latency;
        if settings.jitter > 0 {
          var variance := (o.draws[k].jitter * settings.jitter as real).Floor;
          delay := delay + variance;
        }
        var writeErr := o.writeErrs[k];
        assert delay == Delay(settings, o.draws[k]);
        PrependTwice(written, [Write(k, buf[..read], delay)], RelayFrom(o, k + 1));
        written := written + [Write(k, buf[..read], delay)];
        if writeErr.Some? {
          return Trace(written, Returned(writeErr), k + 1);
        }
      }
      if readErr.Some? {
        if readErr == Some(EOF) {
          return Trace(written, Returned(None), k + 1);
        }
        return Trace(written, Returned(readErr), k + 1);
      }
      k := k + 1;
    }
    t := Trace(written, Exhausted, k);
  }

  lemma PrependTwice(a: seq<Write>, b: seq<Write>, t: Trace)
    ensures Prepend(a, Prepend(b, t)) == Prepend(a + b, t)
  {
    assert a + (b + t.writes) == (a + b) + t.writes;
  }

  // ----- what gets written -----

  /** The k-th read is forwarded: it carried bytes and the drop test spared it. */
  predicate Kept(o: Oracle, k: nat)
    requires WellFormed(o) && k < |o.results|
  {
    |o.results[k].data| > 0 && !Dropped(o.chaos[k], o.draws[k])
  }

  /** The reads in [lo, hi) that are forwarded, in increasing order. */
  function KeptIndices(o: Oracle, lo: nat, hi: nat): seq<nat>
    requires WellFormed(o) && hi <= |o.results|
    decreases hi - lo
  {
    if lo >= hi then []
    else (if Kept(o, lo) then [lo] else []) + KeptIndices(o, lo + 1, hi)
  }

  /** `KeptIndices` lists each forwarded read of the range once, in increasing order. */
  lemma {:induction false} KeptIndicesOrdered(o: Oracle, lo: nat, hi: nat)
    requires WellFormed(o) && hi <= |o.results|
    ensures var r := KeptIndices(o, lo, hi);
      && (forall j :: j in r <==> lo <= j < hi && Kept(o, j))
      && (forall i, j :: 0 <= i < j < |r| ==> r[i] < r[j])
    decreases hi - lo
  {
    if lo < hi {
      KeptIndicesOrdered(o, lo + 1, hi);
      var rest := KeptIndices(o, lo + 1, hi);
      forall i | 0 <= i < |rest|
        ensures lo < rest[i]
      {
        assert rest[i] in rest;
      }
      var head: seq<nat> := if Kept(o, lo) then [lo] else [];
      assert KeptIndices(o, lo, hi) == head + rest;
    }
  }

  /** The read each write came from, in write order. */
  function Indices(ws: seq<Write>): (r: seq<nat>)
    ensures |r| == |ws| && forall i :: 0 <= i < |ws| ==> r[i] == ws[i].index
  {
    seq(|ws|, i requires 0 <= i < |ws| => ws[i].index)
  }

  /** A write carries the bytes of the read it came from, unchanged, after the delay
      that read's settings and draw give. */
  predicate FaithfulWrite(o: Oracle, w: Write)
    requires WellFormed(o)
  {
    w.index < |o.results| && w.data == o.results[w.index].data
    && w.delay == Delay(o.chaos[w.index], o.draws[w.index])
  }

  lemma {:induction false} IndicesFrom(o: Oracle, k: nat)
    requires WellFormed(o) && k <= |o.results|
    ensures RelayFrom(o, k).readsDone <= |o.results|
    ensures Indices(RelayFrom(o, k).writes) == KeptIndices(o, k, RelayFrom(o, k).readsDone)
    decreases |o.results| - k
  {
    if k < |o.results| {
      var r := o.results[k];
      RelayStep(o, k);
      var rest := RelayFrom(o, k + 1);
      if |r.data| > 0 && Dropped(o.chaos[k], o.draws[k]) {
        IndicesFrom(o, k + 1);
        assert KeptIndices(o, k, rest.readsDone) == KeptIndices(o, k + 1, rest.readsDone);
      } else {
        var written := if |r.data| > 0 then [Write(k, r.data, Delay(o.chaos[k], o.draws[k]))] else [];
        assert Indices(written) == if Kept(o, k) then [k] else [];
        if (|r.data| > 0 && o.writeErrs[k].Some?) || ReadVerdict(r.err).Some? {
          assert RelayFrom(o, k).writes == written && RelayFrom(o, k).readsDone == k + 1;
          assert KeptIndices(o, k + 1, k + 1) == [];
        } else {
          IndicesFrom(o, k + 1);
          assert RelayFrom(o, k) == Prepend(written, rest);
          assert Indices(written + rest.writes) == Indices(written) + Indices(rest.writes);
        }
      }
    }
  }

  lemma {:induction false} FaithfulFrom(o: Oracle, k: nat)
    requires WellFormed(o) && k <= |o.results|
    ensures forall i :: 0 <= i < |RelayFrom(o, k).writes| ==> FaithfulWrite(o, RelayFrom(o, k).writes[i])
    decreases |o.results| - k
  {
    if k < |o.results| {
      var r := o.results[k];
      if |r.data| > 0 && Dropped(o.chaos[k], o.draws[k]) {
        FaithfulFrom(o, k + 1);
      } else if !(|r.data| > 0 && o.writeErrs[k].Some?) && ReadVerdict(r.err).None? {
        FaithfulFrom(o, k + 1);
      }
    }
  }

  /** What `Copy` forwards: the written chunks are exactly the non-empty, non-dropped
      chunks among the reads made, in read order, each byte for byte as read and at
      most 32 KiB long. */
  lemma ForwardsExactlyKeptChunks(o: Oracle)
    requires WellFormed(o)
    ensures var t := RelayFrom(o, 0);
      && t.readsDone <= |o.results|
      && Indices(t.writes) == KeptIndices(o, 0, t.readsDone)
      && (forall j: nat :: j in Indices(t.writes) <==> j < t.readsDone && Kept(o, j))
      && (forall i, j :: 0 <= i < j < |t.writes| ==> t.writes[i].index < t.writes[j].index)
      && (forall i :: 0 <= i < |t.writes| ==> FaithfulWrite(o, t.writes[i]))
      && (forall i :: 0 <= i < |t.writes| ==> 0 < |t.writes[i].data| <= ChunkSize)
  {
    IndicesFrom(o, 0);
    FaithfulFrom(o, 0);
    var t := RelayFrom(o, 0);
    KeptIndicesOrdered(o, 0, t.readsDone);
    forall i | 0 <= i < |t.writes|
      ensures 0 < |t.writes[i].data| <= ChunkSize
    {
      assert Indices(t.writes)[i] in KeptIndices(o, 0, t.readsDone);
    }
  }

  /** The variance stays within [0, jitter], and is 0 without jitter. */
  lemma VarianceBounds(c: Chaos, d: Draw)
    requires InRange(c) && 0.0 <= d.jitter < 1.0
    ensures 0 <= Variance(c, d) <= c.jitter
    ensures c.jitter == 0 ==> Variance(c, d) == 0
  {
    if c.jitter > 0 {
      ScaledFloorBelow(d.jitter, c.jitter);
    }
  }

  /** A draw in [0, 1) scaling a positive whole number and truncated stays below it. */
  lemma ScaledFloorBelow(a: real, n: int)
    requires 0.0 <= a < 1.0 && 0 < n
    ensures 0 <= (a * n as real).Floor < n
  {
    var b := n as real;
    var x := a * b;
    assert 0.0 <= x;
    assert x < b by {
      assert b - x == (1.0 - a) * b;
      assert 0.0 < (1.0 - a) * b;
    }
    assert x.Floor as real <= x;
  }

  /** Every forwarded chunk waits the latency plus at most the jitter, exactly the
      latency when there is no jitter, and never a negative time. */
  lemma DelayWithinJitter(o: Oracle)
    requires WellFormed(o)
    ensures var t := RelayFrom(o, 0);
      forall i :: 0 <= i < |t.writes| ==>
        && t.writes[i].index < |o.chaos|
        && var c := o.chaos[t.writes[i].index];
        && 0 <= c.latency <= t.writes[i].delay <= c.latency + c.jitter
        && (c.jitter == 0 ==> t.writes[i].delay == c.latency)
  {
    FaithfulFrom(o, 0);
    var t := RelayFrom(o, 0);
    forall i | 0 <= i < |t.writes|
      ensures t.writes[i].index < |o.chaos|
      ensures var c := o.chaos[t.writes[i].index];
        && 0 <= c.latency <= t.writes[i].delay <= c.latency + c.jitter
        && (c.jitter == 0 ==> t.writes[i].delay == c.latency)
    {
      var k := t.writes[i].index;
      VarianceBounds(o.chaos[k], o.draws[k]);
    }
  }

  /** With a drop rate of 0 on every read, every non-empty chunk read is forwarded. */
  lemma NoDropForwardsEveryChunk(o: Oracle)
    requires WellFormed(o)
    requires forall k :: 0 <= k < |o.chaos| ==> o.chaos[k].dropRate == 0.0
    ensures var t := RelayFrom(o, 0);
      && t.readsDone <= |o.results|
      && forall j: nat :: j in Indices(t.writes) <==> j < t.readsDone && |o.results[j].data| > 0
  {
    ForwardsExactlyKeptChunks(o);
  }

  /** Reads whose drop rate is 1 are all dropped, since a draw is always below 1. */
  lemma {:induction false} FullDropKeepsNone(o: Oracle, lo: nat, hi: nat)
    requires WellFormed(o) && hi <= |o.results|
    requires forall k :: 0 <= k < |o.chaos| ==> o.chaos[k].dropRate >= 1.0
    ensures KeptIndices(o, lo, hi) == []
    decreases hi - lo
  {
    if lo < hi {
      FullDropKeepsNone(o, lo + 1, hi);
    }
  }

  /** With a drop rate of 1 on every read nothing is forwarded; the loop can then end
      only on the error of an empty read. */
  lemma FullDropForwardsNothing(o: Oracle)
    requires WellFormed(o)
    requires forall k :: 0 <= k < |o.chaos| ==> o.chaos[k].dropRate >= 1.0
    ensures var t := RelayFrom(o, 0);
      && t.writes == []
      && t.readsDone <= |o.results|
      && (t.outcome.Returned? ==> 0 < t.readsDone && |o.results[t.readsDone - 1].data| == 0)
  {
    IndicesFrom(o, 0);
    StopsAtFirstFailure(o);
    var t := RelayFrom(o, 0);
    FullDropKeepsNone(o, 0, t.readsDone);
  }

  // ----- how the loop ends -----

  /** After the k-th read the loop goes on to the next one: the chunk was dropped,
      in which case `continue` skips its error check, or it was empty or written
      without error, and the read brought no error. */
  predicate CarriesOn(o: Oracle, k: nat)
    requires WellFormed(o) && k < |o.results|
  {
    var r := o.results[k];
    || (|r.data| > 0 && Dropped(o.chaos[k], o.draws[k]))
    || ((|r.data| > 0 ==> o.writeErrs[k].None?) && r.err.None?)
  }

  /** What `Copy` returns when the k-th read does not carry on: the write error of a
      forwarded chunk; otherwise nil at end of stream, or the read error. */
  function StopError(o: Oracle, k: nat): Option<IoError>
    requires WellFormed(o) && k < |o.results|
  {
    var r := o.results[k];
    if |r.data| > 0 && o.writeErrs[k].Some? then o.writeErrs[k]
    else if r.err == Some(EOF) then None
    else r.err
  }

  lemma {:induction false} StopsFrom(o: Oracle, k: nat)
    requires WellFormed(o) && k <= |o.results|
    ensures var t := RelayFrom(o, k);
      t.outcome.Returned? ==>
        && k < t.readsDone
        && (forall j :: k <= j < t.readsDone - 1 ==> CarriesOn(o, j))
        && !CarriesOn(o, t.readsDone - 1)
        && t.outcome.err == StopError(o, t.readsDone - 1)
    decreases |o.results| - k
  {
    if k < |o.results| {
      var r := o.results[k];
      RelayStep(o, k);
      if |r.data| > 0 && Dropped(o.chaos[k], o.draws[k]) {
        StopsFrom(o, k + 1);
      } else if !(|r.data| > 0 && o.writeErrs[k].Some?) && ReadVerdict(r.err).None? {
        StopsFrom(o, k + 1);
      }
    }
  }

  lemma {:induction false} ExhaustsFrom(o: Oracle, k: nat)
    requires WellFormed(o) && k <= |o.results|
    ensures var t := RelayFrom(o, k);
      t.outcome == Exhausted ==>
        t.readsDone == |o.results| && forall j :: k <= j < |o.results| ==> CarriesOn(o, j)
    decreases |o.results| - k
  {
    if k < |o.results| {
      var r := o.results[k];
      RelayStep(o, k);
      if |r.data| > 0 && Dropped(o.chaos[k], o.draws[k]) {
        ExhaustsFrom(o, k + 1);
      } else if !(|r.data| > 0 && o.writeErrs[k].Some?) && ReadVerdict(r.err).None? {
        ExhaustsFrom(o, k + 1);
      }
    }
  }

  /** `Copy` stops at the first read that does not carry on, and returns that read's
      `StopError`; if every read carries on, it keeps reading for as long as there
      are reads. */
  lemma StopsAtFirstFailure(o: Oracle)
    requires WellFormed(o)
    ensures var t := RelayFrom(o, 0);
      && t.readsDone <= |o.results|
      && (t.outcome == Exhausted ==> t.readsDone == |o.results|)
      && (t.outcome == Exhausted ==> forall j :: 0 <= j < |o.results| ==> CarriesOn(o, j))
      && (t.outcome.Returned? ==>
            && 0 < t.readsDone
            && (forall j :: 0 <= j < t.readsDone - 1 ==> CarriesOn(o, j))
            && !CarriesOn(o, t.readsDone - 1)
            && t.outcome.err == StopError(o, t.readsDone - 1))
  {
    StopsFrom(o, 0);
    ExhaustsFrom(o, 0);
  }

  /** The converse: the first read that does not carry on ends the loop, right after it. */
  lemma {:induction false} StopsAt(o: Oracle, i: nat, k: nat)
    requires WellFormed(o) && i <= k < |o.results|
    requires forall j :: i <= j < k ==> CarriesOn(o, j)
    requires !CarriesOn(o, k)
    ensures RelayFrom(o, i).readsDone == k + 1
    ensures RelayFrom(o, i).outcome == Returned(StopError(o, k))
    decreases k - i
  {
    if i < k {
      assert CarriesOn(o, i);
      StopsAt(o, i + 1, k);
    }
  }

  /** A failed write of the k-th chunk ends the loop at once with that error: no read
      after the k-th is made, and that chunk is the last one written. */
  lemma WriteErrorEndsAtOnce(o: Oracle, k: nat)
    requires WellFormed(o) && k < |o.results|
    requires forall j :: 0 <= j < k ==> CarriesOn(o, j)
    requires Kept(o, k) && o.writeErrs[k].Some?
    ensures var t := RelayFrom(o, 0);
      && t.readsDone == k + 1
      && t.outcome == Returned(o.writeErrs[k])
      && |t.writes| > 0 && t.writes[|t.writes| - 1].index == k
  {
    StopsAt(o, 0, k);
    ForwardsExactlyKeptChunks(o);
    var t := RelayFrom(o, 0);
    var ks := Indices(t.writes);
    assert k in ks;
    var p :| 0 <= p < |ks| && ks[p] == k;
    var last := |ks| - 1;
    assert ks[last] in ks;
    assert ks[p] <= ks[last] <= k;
  }

  /** End of stream returns nil: the first read that brings EOF, unless its chunk is
      dropped or its write fails, makes `Copy` return without error. */
  lemma EofReturnsNil(o: Oracle, k: nat)
    requires WellFormed(o) && k < |o.results|
    requires forall j :: 0 <= j < k ==> CarriesOn(o, j)
    requires o.results[k].err == Some(EOF)
    requires |o.results[k].data| > 0 ==> !Dropped(o.chaos[k], o.draws[k]) && o.writeErrs[k].None?
    ensures var t := RelayFrom(o, 0);
      t.readsDone == k + 1 && t.outcome == Returned(None)
  {
    StopsAt(o, 0, k);
  }
}
