/** The proxy's runtime configuration (internal/state/state.go): the chaos
    settings (latency, jitter, drop rate) and the connection settings (listen
    port, target address), held in one object that the setters update in place.
    Durations are integer nanoseconds, Go's `time.Duration`. */
module State {

  const Second: int := 1_000_000_000
  const MaxLatency: int := 30 * Second
  const MaxJitter: int := 10 * Second
  const MaxDropRate: real := 1.0

  /** Go's `time.Duration`: a signed 64-bit count of nanoseconds. */
  type Duration = d: int | -0x8000_0000_0000_0000 <= d <= 0x7fff_ffff_ffff_ffff

  datatype Chaos = Chaos(jitter: Duration, latency: Duration, dropRate: real)

  datatype Connection = Connection(port: int, target: string)

  /** The whole state as a value: what `GetChaos` and `GetConnection` together observe. */
  datatype Snapshot = Snapshot(chaos: Chaos, connection: Connection)

  /** Every chaos field lies in its legal range. */
  predicate InRange(c: Chaos) {
    && 0 <= c.latency <= MaxLatency
    && 0 <= c.jitter <= MaxJitter
    && 0.0 <= c.dropRate <= MaxDropRate
  }

  function Distance(a: int, b: int): nat {
    if a <= b then b - a else a - b
  }

  function RealDistance(a: real, b: real): real {
    if a <= b then b - a else a - b
  }

  /** The two-step clamp of `SetJitter` and `SetLatency`: its result is the value
      of [0, hi] nearest to `x`. */
  function Clamp(x: Duration, hi: Duration): (r: Duration)
    requires 0 <= hi
    ensures 0 <= r <= hi
    ensures forall y :: 0 <= y <= hi ==> Distance(r, x) <= Distance(y, x)
  {
    var v := if x > hi then hi else x;
    if v < 0 then 0 else v
  }

  /** The clamp of `SetDropRate`: the value of [0, MaxDropRate] nearest to `x`. */
  function ClampRate(x: real): (r: real)
    ensures 0.0 <= r <= MaxDropRate
    ensures forall y :: 0.0 <= y <= MaxDropRate ==> RealDistance(r, x) <= RealDistance(y, x)
  {
    var v := if x > MaxDropRate then MaxDropRate else x;
    if v < 0.0 then 0.0 else v
  }

  /** One call of a setter, as a value. */
  datatype Setting =
    | Port(port: int)
    | Target(target: string)
    | Jitter(jitter: Duration)
    | Latency(latency: Duration)
    | DropRate(dropRate: real)

  /** What a setter does to the state. */
  function Apply(s: Snapshot, op: Setting): (r: Snapshot)
    ensures InRange(s.chaos) ==> InRange(r.chaos)
    ensures op.Port? || op.Target? ==> r.chaos == s.chaos
    ensures !(op.Port? || op.Target?) ==> r.connection == s.connection
  {
    match op
    case Port(p) => s.(connection := s.connection.(port := p))
    case Target(t) => s.(connection := s.connection.(target := t))
    case Jitter(j) => s.(chaos := s.chaos.(jitter := Clamp(j, MaxJitter)))
    case Latency(l) => s.(chaos := s.chaos.(latency := Clamp(l, MaxLatency)))
    case DropRate(d) => s.(chaos := s.chaos.(dropRate := ClampRate(d)))
  }

  /** A sequence of setter calls, in order. */
  function Run(s: Snapshot, ops: seq<Setting>): Snapshot
    decreases |ops|
  {
    if ops == [] then s else Run(Apply(s, ops[0]), ops[1..])
  }

  /** The state `New` returns: everything zero, no target. */
  const Initial: Snapshot := Snapshot(Chaos(0, 0, 0.0), Connection(0, ""))

  /** A value already in range is stored unchanged; out of range, the nearest bound is stored. */
  lemma ClampKeepsLegalValues(x: Duration, hi: Duration)
    requires 0 <= hi
    ensures 0 <= x <= hi ==> Clamp(x, hi) == x
    ensures x > hi ==> Clamp(x, hi) == hi
    ensures x < 0 ==> Clamp(x, hi) == 0
  {
    var r := Clamp(x, hi);
    if 0 <= x <= hi { assert Distance(r, x) <= Distance(x, x); }
    else if x > hi { assert Distance(r, x) <= Distance(hi, x); }
    else { assert Distance(r, x) <= Distance(0, x); }
  }

  /** Each setter changes its own field and no other; the chaos setters store a legal value. */
  lemma ApplyTouchesOnlyItsField(s: Snapshot, op: Setting)
    ensures var t := Apply(s, op);
      && (!op.Port? ==> t.connection.port == s.connection.port)
      && (!op.Target? ==> t.connection.target == s.connection.target)
      && (!op.Jitter? ==> t.chaos.jitter == s.chaos.jitter)
      && (!op.Latency? ==> t.chaos.latency == s.chaos.latency)
      && (!op.DropRate? ==> t.chaos.dropRate == s.chaos.dropRate)
      && (op.Port? ==> t.connection.port == op.port)
      && (op.Target? ==> t.connection.target == op.target)
      && (op.Jitter? ==> 0 <= t.chaos.jitter <= MaxJitter)
      && (op.Latency? ==> 0 <= t.chaos.latency <= MaxLatency)
      && (op.DropRate? ==> 0.0 <= t.chaos.dropRate <= MaxDropRate)
  {
  }

  /** Calling the same setter twice with the same argument is the same as calling it once. */
  lemma ApplyIdempotent(s: Snapshot, op: Setting)
    ensures Apply(Apply(s, op), op) == Apply(s, op)
  {
  }

  /** Starting from a state whose chaos fields are in range (as `New`'s are), any
      sequence of setter calls keeps them in range. */
  lemma {:induction false} RunKeepsChaosInRange(s: Snapshot, ops: seq<Setting>)
    requires InRange(s.chaos)
    ensures InRange(Run(s, ops).chaos)
    decreases |ops|
  {
    if ops != [] {
      RunKeepsChaosInRange(Apply(s, ops[0]), ops[1..]);
    }
  }

  lemma NewIsInRange()
    ensures InRange(Initial.chaos)
    ensures forall ops :: InRange(Run(Initial, ops).chaos)
  {
    forall ops ensures InRange(Run(Initial, ops).chaos) {
      RunKeepsChaosInRange(Initial, ops);
    }
  }

  /** The setters that do not clamp (`SetPort`, `SetTarget`) leave the chaos settings
      as they are, whatever sequence of them runs. */
  lemma {:induction false} ConnectionSettersKeepChaos(s: Snapshot, ops: seq<Setting>)
    requires forall i :: 0 <= i < |ops| ==> ops[i].Port? || ops[i].Target?
    ensures Run(s, ops).chaos == s.chaos
    decreases |ops|
  {
    if ops != [] {
      ConnectionSettersKeepChaos(Apply(s, ops[0]), ops[1..]);
    }
  }

  /** `HavocState`: the live state shared by the accept loop, the relays and the
      control surface. Go guards it with a read/write lock; this model is sequential. */
  class HavocState {
    var chaos: Chaos
    var connection: Connection

    ghost predicate Valid()
      reads this
    {
      InRange(chaos)
    }

    function Current(): Snapshot
      reads this
    {
      Snapshot(chaos, connection)
    }

    /** `New`: a zero-valued state. */
    constructor ()
      ensures Valid()
      ensures Current() == Initial
      ensures chaos.latency == 0 && chaos.jitter == 0 && chaos.dropRate == 0.0
      ensures connection.port == 0 && connection.target == ""
    {
      chaos := Chaos(0, 0, 0.0);
      connection := Connection(0, "");
    }

    method SetPort(port: int)
      modifies this
      ensures connection == old(connection).(port := port) && chaos == old(chaos)
      ensures Current() == Apply(old(Current()), Setting.Port(port))
      ensures old(Valid()) ==> Valid()
    {
      connection := connection.(port := port);
    }

    method SetTarget(target: string)
      modifies this
      ensures connection == old(connection).(target := target) && chaos == old(chaos)
      ensures Current() == Apply(old(Current()), Setting.Target(target))
      ensures old(Valid()) ==> Valid()
    {
      connection := connection.(target := target);
    }

    method SetJitter(jitter: Duration)
      modifies this
      ensures chaos == old(chaos).(jitter := Clamp(jitter, MaxJitter)) && connection == old(connection)
      ensures Current() == Apply(old(Current()), Setting.Jitter(jitter))
      ensures old(Valid()) ==> Valid()
    {
      var j := jitter;
      if j > MaxJitter {
        j := MaxJitter;
      }
      if j < 0 {
        j := 0;
      }
      chaos := chaos.(jitter := j);
    }

    method SetLatency(latency: Duration)
      modifies this
      ensures chaos == old(chaos).(latency := Clamp(latency, MaxLatency)) && connection == old(connection)
      ensures Current() == Apply(old(Current()), Setting.Latency(latency))
      ensures old(Valid()) ==> Valid()
    {
      var l := latency;
      if l > MaxLatency {
        l := MaxLatency;
      }
      if l < 0 {
        l := 0;
      }
      chaos := chaos.(latency := l);
    }

    method SetDropRate(dropRate: real)
      modifies this
      ensures chaos == old(chaos).(dropRate := ClampRate(dropRate)) && connection == old(connection)
      ensures Current() == Apply(old(Current()), Setting.DropRate(dropRate))
      ensures old(Valid()) ==> Valid()
    {
      var d := dropRate;
      if d > MaxDropRate {
        d := MaxDropRate;
      }
      if d < 0.0 {
        d := 0.0;
      }
      chaos := chaos.(dropRate := d);
    }

    /** The chaos settings at the moment of the call; nothing changes. */
    method GetChaos() returns (c: Chaos)
      ensures c == chaos
      ensures Valid() ==> InRange(c)
    {
      c := chaos;
    }

    /** The connection settings at the moment of the call; nothing changes. */
    method GetConnection() returns (c: Connection)
      ensures c == connection
    {
      c := connection;
    }
  }
}
