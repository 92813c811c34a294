/**
 Two endpoints of this implementation shaking hands over reliable FIFO channels. Every write and
 every read is a step of its own, and the scheduler may interleave them in any way. The channel
 from a side to the other is the part of its output that is written and not yet read.
 */
module TwoParty {
  import opened Peers
  import opened Messages
  import opened Features
  import opened Handshake

  /** A side: who it is, how far its output is on the wire, and how much of the other's it has read. */
  datatype Side = Side(l: Local, peer: Peer, e: Endpoint, written: nat, read: nat)
  datatype System = System(a: Side, b: Side)
  {
    function Flip(): System { System(b, a) }
  }

  function Begin(l: Local, peer: Peer): Side { Side(l, peer, Start(l, peer), 0, 0) }

  predicate CanWrite(s: Side) { s.written < |s.e.out| }

  /** A side reads only inside its handshake loop, and there only when all its writes are done. */
  predicate CanRead(s: Side, other: Side) {
    && s.written == |s.e.out| && s.e.phase != Complete && !s.e.looped
    && s.read < other.written <= |other.e.out|
  }

  ghost predicate StepOf(s: Side, other: Side, s': Side) {
    || (CanWrite(s) && s' == s.(written := s.written + 1))
    || (CanRead(s, other) && s' == s.(e := Receive(s.l, s.e, other.e.out[s.read]), read := s.read + 1))
  }

  ghost predicate Step(x: System, y: System) {
    || (y.b == x.b && StepOf(x.a, x.b, y.a))
    || (y.a == x.a && StepOf(x.b, x.a, y.b))
  }

  ghost predicate IsRun(la: Local, pa: Peer, lb: Local, pb: Peer, run: seq<System>) {
    && run != []
    && run[0] == System(Begin(la, pa), Begin(lb, pb))
    && forall i :: 0 <= i < |run| - 1 ==> Step(run[i], run[i + 1])
  }

  // ---- Invariant: each endpoint is a function of what it has read ----

  ghost predicate Sound(s: Side, other: Side) {
    && s.read <= other.written <= |other.e.out|
    && s.e == Run(s.l, s.peer, other.e.out[..s.read])
  }

  ghost predicate Inv(x: System) { Sound(x.a, x.b) && Sound(x.b, x.a) }

  lemma OutputGrows(l: Local, e: Endpoint, m: NetworkMessage)
    ensures e.out <= Receive(l, e, m).out
  {
  }

  lemma SideStepKeepsInv(x: System, s': Side)
    requires Inv(x) && StepOf(x.a, x.b, s')
    ensures Inv(System(s', x.b))
  {
    if s'.read != x.a.read {
      var b := x.b;
      var ms := b.e.out[..x.a.read + 1];
      assert ms[..|ms| - 1] == b.e.out[..x.a.read];
      OutputGrows(x.a.l, x.a.e, b.e.out[x.a.read]);
      assert s'.e.out[..b.read] == x.a.e.out[..b.read];
    }
  }

  lemma StepKeepsInv(x: System, y: System)
    requires Inv(x) && Step(x, y)
    ensures Inv(y)
  {
    if y.b == x.b && StepOf(x.a, x.b, y.a) {
      SideStepKeepsInv(x, y.a);
    } else {
      SideStepKeepsInv(x.Flip(), y.b);
    }
  }

  // ---- What a side writes, given what it has read ----

  /** A side's output is its version alone, or, once it has read the other's version, everything. */
  lemma OutputShape(s: Side, other: Side)
    requires Sound(s, other) && Sound(other, s) && s.l.nonce != other.l.nonce
    ensures !Loops(s.l, other.e.out[..s.read])
    ensures s.e.out == [s.l.Greeting()] || FullOutput(s, other)
    ensures s.read > 0 ==> FullOutput(s, other)
  {
    HeadIsGreeting(other, s);
    var ms := other.e.out[..s.read];
    OneVersionOnly(other, s);
    GreetingMeaning(s.l, s.peer, ms);
    if s.read > 0 {
      assert FirstVersionAt(ms, 0);
    }
  }

  ghost predicate FullOutput(s: Side, other: Side) {
    s.e.out == [s.l.Greeting()] + Negotiation(s.l, Min(s.l.Number(), other.l.Number())) + [Verack]
  }

  ghost predicate HeadOnly(l: Local, out: seq<NetworkMessage>) {
    out != [] && out[0] == l.Greeting() && forall i :: 1 <= i < |out| ==> !out[i].Version?
  }

  /** An endpoint writes its version first and never again. */
  lemma {:induction false} OutputHead(l: Local, peer: Peer, ms: seq<NetworkMessage>)
    ensures HeadOnly(l, Run(l, peer, ms).out)
  {
    if ms != [] {
      var n := |ms| - 1;
      OutputHead(l, peer, ms[..n]);
      var e := Run(l, peer, ms[..n]);
      if ms[n].Version? {
        var more := Negotiation(l, Min(l.Number(), ms[n].payload.version));
        assert forall i :: 0 <= i < |more| ==> !more[i].Version?;
        assert Receive(l, e, ms[n]).out == e.out || Receive(l, e, ms[n]).out == e.out + more + [Verack];
      }
    }
  }

  lemma HeadIsGreeting(s: Side, other: Side)
    requires Sound(s, other)
    ensures HeadOnly(s.l, s.e.out)
  {
    OutputHead(s.l, s.peer, other.e.out[..s.read]);
  }

  lemma OneVersionOnly(s: Side, other: Side)
    requires Sound(s, other) && other.read <= |s.e.out| && s.l.nonce != other.l.nonce
    ensures !Loops(other.l, s.e.out[..other.read])
  {
    HeadIsGreeting(s, other);
  }

  /** The verack closes a side's output. */
  lemma VerackIsLast(s: Side, other: Side, k: nat)
    requires Sound(s, other) && Sound(other, s) && s.l.nonce != other.l.nonce
    requires k <= |s.e.out| && Verack in s.e.out[..k]
    ensures k == |s.e.out| && FullOutput(s, other)
  {
    OutputShape(s, other);
    var effective := Min(s.l.Number(), other.l.Number());
    NegotiationContents(s.l, effective, AddrV2Support);
    var full := [s.l.Greeting()] + Negotiation(s.l, effective);
    assert Verack !in full;
    assert FullOutput(s, other) ==> forall i :: 0 <= i < |full| ==> s.e.out[i] == full[i];
    assert forall i :: 0 <= i < |s.e.out| - 1 ==> s.e.out[i] != Verack;
  }

  // ---- Agreement ----

  ghost predicate Agreed(s: Side, other: Side) {
    && Smaller(s.e.conn.effective, s.l.Number(), other.l.Number())
    && TakesOver(s.peer, s.e.peer, other.l.services, other.l.Number())
    && EnablesExactly(s.e.conn, s.l, other.l.Number(), other.l.wants)
  }

  lemma CompleteSideAgrees(s: Side, other: Side)
    requires Sound(s, other) && Sound(other, s) && s.l.nonce != other.l.nonce && s.e.phase == Complete
    ensures Agreed(s, other)
  {
    var ms := other.e.out[..s.read];
    OutputShape(s, other);
    PhaseMeaning(s.l, s.peer, ms);
    assert Verack in ms;
    VerackIsLast(other, s, s.read);
    assert ms == other.e.out;
    GreetingMeaning(s.l, s.peer, ms);
    assert FirstVersionAt(ms, 0);
    EnabledExactly(s.l, s.peer, ms, 0);
    var effective := Min(other.l.Number(), s.l.Number());
    OutputContents(other.l, effective, AddrV2Support);
    OutputContents(other.l, effective, HeaderAnnouncements);
    OutputContents(other.l, effective, WtxidAnnouncements);
  }

  lemma {:induction false} RunKeepsInv(la: Local, pa: Peer, lb: Local, pb: Peer, run: seq<System>, n: nat)
    requires IsRun(la, pa, lb, pb, run) && n < |run|
    ensures Inv(run[n]) && run[n].a.l == la && run[n].b.l == lb && run[n].a.peer == pa && run[n].b.peer == pb
  {
    if n > 0 {
      RunKeepsInv(la, pa, lb, pb, run, n - 1);
      assert Step(run[n - 1], run[n - 1 + 1]);
      StepKeepsInv(run[n - 1], run[n]);
    }
  }

  /**
   In every state of every run with distinct nonces, no side has failed, and a side that is
   complete already holds the agreed version and the agreed features.
   */
  lemma TwoPartyAgreement(la: Local, pa: Peer, lb: Local, pb: Peer, run: seq<System>, n: nat)
    requires IsRun(la, pa, lb, pb, run) && n < |run| && la.nonce != lb.nonce
    ensures !run[n].a.e.looped && !run[n].b.e.looped
    ensures run[n].a.e.phase == Complete ==> Agreed(run[n].a, run[n].b)
    ensures run[n].b.e.phase == Complete ==> Agreed(run[n].b, run[n].a)
  {
    RunKeepsInv(la, pa, lb, pb, run, n);
    var x := run[n];
    OutputShape(x.a, x.b);
    OutputShape(x.b, x.a);
    PhaseMeaning(la, pa, x.b.e.out[..x.a.read]);
    PhaseMeaning(lb, pb, x.a.e.out[..x.b.read]);
    if x.a.e.phase == Complete { CompleteSideAgrees(x.a, x.b); }
    if x.b.e.phase == Complete { CompleteSideAgrees(x.b, x.a); }
  }

  /** Two endpoints with the same nonce never complete. */
  lemma SelfConnectionNeverCompletes(la: Local, pa: Peer, lb: Local, pb: Peer, run: seq<System>, n: nat)
    requires IsRun(la, pa, lb, pb, run) && n < |run| && la.nonce == lb.nonce
    ensures run[n].a.e.looped <==> run[n].a.read > 0
    ensures run[n].b.e.looped <==> run[n].b.read > 0
    ensures run[n].a.e.phase != Complete && run[n].b.e.phase != Complete
  {
    RunKeepsInv(la, pa, lb, pb, run, n);
    OwnVersionLoops(run[n].a, run[n].b);
    OwnVersionLoops(run[n].b, run[n].a);
  }

  lemma OwnVersionLoops(s: Side, other: Side)
    requires Sound(s, other) && Sound(other, s) && s.l.nonce == other.l.nonce
    ensures s.e.looped <==> s.read > 0
    ensures s.e.phase != Complete
  {
    var ms := other.e.out[..s.read];
    HeadIsGreeting(other, s);
    PhaseMeaning(s.l, s.peer, ms);
    if s.read > 0 {
      assert LoopAt(s.l, ms, 0);
      LoopedNeverCompletes(s.l, s.peer, ms);
    }
  }

  lemma {:induction false} LoopedNeverCompletes(l: Local, peer: Peer, ms: seq<NetworkMessage>)
    requires ms != [] && ms[0].Version? && ms[0].payload.nonce == l.nonce
    ensures Run(l, peer, ms).looped && Run(l, peer, ms).phase == VersionSent
  {
    if |ms| > 1 {
      LoopedNeverCompletes(l, peer, ms[..|ms| - 1]);
    } else {
      assert Run(l, peer, ms[..0]) == Start(l, peer);
    }
  }

  // ---- Every schedule completes both sides ----

  ghost predicate BothComplete(x: System) { x.a.e.phase == Complete && x.b.e.phase == Complete }

  /** Until both sides are complete, one of them can write or read. */
  lemma Progress(x: System)
    requires Inv(x) && x.a.l.nonce != x.b.l.nonce && !BothComplete(x)
    ensures CanWrite(x.a) || CanWrite(x.b) || CanRead(x.a, x.b) || CanRead(x.b, x.a)
  {
    if !CanWrite(x.a) && !CanWrite(x.b) {
      if x.a.e.phase != Complete { SideProgress(x.a, x.b); } else { SideProgress(x.b, x.a); }
    }
  }

  lemma SideProgress(s: Side, other: Side)
    requires Sound(s, other) && Sound(other, s) && s.l.nonce != other.l.nonce
    requires !CanWrite(s) && !CanWrite(other) && s.e.phase != Complete
    ensures CanRead(s, other) || CanRead(other, s)
  {
    var ms := other.e.out[..s.read];
    OutputShape(s, other);
    OutputShape(other, s);
    PhaseMeaning(s.l, s.peer, ms);
    PhaseMeaning(other.l, other.peer, s.e.out[..other.read]);
    HeadIsGreeting(other, s);
    assert other.read > 0 ==> other.e.out[|other.e.out| - 1] == Verack;
    assert s.read == |other.e.out| ==> ms == other.e.out && ms[0] in ms && ms[|ms| - 1] in ms;
  }

  /** A read version costs the reader at most four writes. */
  function SideWork(s: Side, other: Side): int {
    (if s.read == 0 then 12 else 0) + 2 * (|s.e.out| - s.written) + (|other.e.out| - s.read)
  }

  function Work(x: System): int { SideWork(x.a, x.b) + SideWork(x.b, x.a) }

  lemma StepReducesWork(x: System, y: System)
    requires Inv(x) && Step(x, y) && x.a.l.nonce != x.b.l.nonce
    ensures 0 <= Work(y) < Work(x)
  {
    StepKeepsInv(x, y);
    if y.b == x.b && StepOf(x.a, x.b, y.a) {
      SideStepReducesWork(x, y.a);
    } else {
      SideStepReducesWork(x.Flip(), y.b);
    }
  }

  lemma SideStepReducesWork(x: System, s': Side)
    requires Inv(x) && StepOf(x.a, x.b, s') && x.a.l.nonce != x.b.l.nonce
    ensures Work(System(s', x.b)) < Work(x)
  {
    if s'.read != x.a.read {
      SideStepKeepsInv(x, s');
      OutputShape(x.a, x.b);
      OutputShape(s', x.b);
      NegotiationContents(x.a.l, Min(x.a.l.Number(), x.b.l.Number()), AddrV2Support);
    }
  }

  ghost predicate Proceeds(run: nat -> System, i: nat) {
    Step(run(i), run(i + 1)) || (run(i + 1) == run(i) && forall y :: !Step(run(i), y))
  }

  lemma {:induction false} ReachesCompletion(run: nat -> System, n: nat) returns (m: nat)
    requires forall i: nat :: Proceeds(run, i)
    requires Inv(run(n)) && run(n).a.l.nonce != run(n).b.l.nonce
    ensures m >= n && BothComplete(run(m))
    decreases Work(run(n))
  {
    m := n;
    var x := run(n);
    if !BothComplete(x) {
      Progress(x);
      SomeStep(x);
      assert Proceeds(run, n);
      StepKeepsInv(x, run(n + 1));
      StepReducesWork(x, run(n + 1));
      assert run(n + 1).a.l == x.a.l && run(n + 1).b.l == x.b.l;
      m := ReachesCompletion(run, n + 1);
    }
  }

  lemma SomeStep(x: System)
    requires CanWrite(x.a) || CanWrite(x.b) || CanRead(x.a, x.b) || CanRead(x.b, x.a)
    ensures exists y :: Step(x, y)
  {
    if CanWrite(x.a) { assert Step(x, System(x.a.(written := x.a.written + 1), x.b)); }
    else if CanWrite(x.b) { assert Step(x, System(x.a, x.b.(written := x.b.written + 1))); }
    else if CanRead(x.a, x.b) {
      assert Step(x, System(x.a.(e := Receive(x.a.l, x.a.e, x.b.e.out[x.a.read]), read := x.a.read + 1), x.b));
    } else {
      assert Step(x, System(x.a, x.b.(e := Receive(x.b.l, x.b.e, x.a.e.out[x.b.read]), read := x.b.read + 1)));
    }
  }

  /** From the start, with distinct nonces, every schedule that does not stop early completes both sides in agreement. */
  lemma EveryScheduleCompletes(la: Local, pa: Peer, lb: Local, pb: Peer, run: nat -> System)
    requires la.nonce != lb.nonce
    requires run(0) == System(Begin(la, pa), Begin(lb, pb)) && forall i: nat :: Proceeds(run, i)
    ensures exists n: nat :: BothComplete(run(n)) && Agreed(run(n).a, run(n).b) && Agreed(run(n).b, run(n).a)
  {
    var n := ReachesCompletion(run, 0);
    InvAlong(run, n);
    CompleteSideAgrees(run(n).a, run(n).b);
    CompleteSideAgrees(run(n).b, run(n).a);
  }

  lemma {:induction false} InvAlong(run: nat -> System, n: nat)
    requires Inv(run(0)) && forall i: nat :: Proceeds(run, i)
    ensures Inv(run(n)) && run(n).a.l == run(0).a.l && run(n).b.l == run(0).b.l
  {
    if n > 0 {
      InvAlong(run, n - 1);
      assert Proceeds(run, n - 1);
      if Step(run(n - 1), run(n)) { StepKeepsInv(run(n - 1), run(n)); }
    }
  }
}
