/** The life of a release (internal/releases/manager.go): `CloneRelease` with its
    phases clone, mirror, extract and gate, `ReExtract` and `ResetState`, and the
    state that each of them saves. */
module Pipeline {
  import opened Digests
  import Blobs
  import opened Relations
  import opened Mirror
  import opened ImageRefs
  import Clone
  import WorkerPool

  datatype State = Available | Cloning | Cloned | Extracting | Ready | Failed

  /** One passage through the phases, as far as it gets: a run of `Clone`, the
      references found in the release image, a run of the workers, whether the
      extraction succeeded, and what the gate then looks at. */
  datatype Phases = Phases(release: Clone.Job, clone: seq<Clone.State>, refs: Option<seq<Component>>,
                           pool: WorkerPool.Config, mirror: seq<WorkerPool.State>, extracted: bool, gate: Gate)
  {
    predicate ClonedOk() {
      clone != [] && Clone.Finished(release, clone[|clone|-1])
    }

    /** No references are nothing to mirror. */
    predicate MirroredOk() {
      refs.Some? && (refs.value == [] || (mirror != [] && mirror[|mirror|-1].main == WorkerPool.Returned(None)))
    }

    function Manifest(): Option<Clone.Manifest> {
      match ReleaseBytes(gate.store, gate.meta, release.repo, release.tag)
      case None => None
      case Some(bytes) => release.parse(bytes)
    }

    /** The verification runs to its end, and finds everything. */
    predicate Passes() {
      && Manifest().Some? && gate.refs.Some? && (gate.cancelled.None? || gate.cancelled.value >= |gate.refs.value|)
      && MirrorComplete(release.parse, gate.store, Manifest().value, gate.refs.value)
    }

    predicate Fetched() {
      ClonedOk() && MirroredOk()
    }

    /** The last state to be saved. */
    function End(): State {
      if !Fetched() then Failed
      else if !extracted then Cloned
      else if Passes() then Ready else Failed
    }

    /** The states to be saved after `cloning`. */
    function States(): seq<State> {
      if Fetched() then [Cloned, Extracting, End()] else [End()]
    }
  }

  /** Stores, references in the order of this walk, and the component at which
      the context turns out to be cancelled. */
  datatype Gate = Gate(store: Blobs.Files, meta: Typed, refs: Option<seq<Component>>, cancelled: Option<nat>)

  /* ---- which states are saved ---- */

  /** Of the states to be saved in order, those whose save works; save `k` is the first. */
  function Written(states: seq<State>, works: nat -> bool, k: nat): seq<State> {
    if states == [] then []
    else Saved(states[0], works(k)) + Written(states[1..], works, k + 1)
  }

  function Saved(s: State, works: bool): seq<State> {
    if works then [s] else []
  }

  lemma OneWritten(a: State, works: nat -> bool, k: nat)
    ensures Written([a], works, k) == Saved(a, works(k))
  {
    assert [a][1..] == [];
  }

  lemma TwoWritten(a: State, b: State, works: nat -> bool, k: nat)
    ensures Written([a, b], works, k) == Saved(a, works(k)) + Saved(b, works(k + 1))
  {
    assert [a, b][1..] == [b];
    OneWritten(b, works, k + 1);
  }

  lemma ThreeWritten(a: State, b: State, c: State, works: nat -> bool, k: nat)
    ensures Written([a, b, c], works, k) == Saved(a, works(k)) + Saved(b, works(k + 1)) + Saved(c, works(k + 2))
  {
    assert [a, b, c][1..] == [b, c];
    TwoWritten(b, c, works, k + 1);
  }

  lemma {:induction false} WrittenAreThose(states: seq<State>, works: nat -> bool, k: nat)
    ensures forall s :: s in Written(states, works, k) ==> s in states
  {
    if states != [] {
      WrittenAreThose(states[1..], works, k + 1);
    }
  }

  lemma PassageWritten(p: Phases, works: nat -> bool, k: nat)
    ensures Written(p.States(), works, k) ==
      if p.Fetched() then Saved(Cloned, works(k)) + Saved(Extracting, works(k + 1)) + Saved(p.End(), works(k + 2))
      else Saved(p.End(), works(k))
  {
    hide Written, Phases.Fetched, Phases.End;
    OneWritten(p.End(), works, k);
    ThreeWritten(Cloned, Extracting, p.End(), works, k);
  }

  function Last(stored: Option<State>, written: seq<State>): Option<State> {
    if written == [] then stored else Some(written[|written|-1])
  }

  lemma LastOf(stored: Option<State>, a: seq<State>, b: seq<State>)
    ensures Last(stored, a + b) == Last(Last(stored, a), b)
    ensures b != [] ==> Last(stored, b).value in b
  {
  }

  lemma ThreeSaved(stored: Option<State>, history: seq<State>, a: seq<State>, b: seq<State>, c: seq<State>)
    ensures history + a + b + c == history + (a + b + c)
    ensures Last(Last(Last(stored, a), b), c) == Last(stored, a + b + c)
  {
  }

  predicate Busy(stored: Option<State>) {
    stored == Some(Cloning) || stored == Some(Extracting)
  }

  /** `works` says which saves of the operation work; `upstream`, whether a release
      without a record can be registered. */
  datatype Op =
    | CloneRelease(p: Phases, upstream: bool, works: nat -> bool)
    | ReExtract(extracted: bool, works: nat -> bool)
    | ResetState(works: nat -> bool)

  datatype Answer = Accepted | Refused | Unregistered | NotSaved | Unchanged

  /** Registering and the first save must work; later failures are ignored. */
  function Answered(stored: Option<State>, op: Op): Answer {
    match op
    case CloneRelease(_, upstream, works) =>
      if stored.None? then if !upstream || !works(0) then Unregistered else if works(1) then Accepted else NotSaved
      else if Busy(stored) then Refused else if works(0) then Accepted else NotSaved
    case ReExtract(_, _) => if stored.None? then Unregistered else if Busy(stored) then Refused else Accepted
    case ResetState(works) =>
      if stored.None? then Unregistered else if !Busy(stored) then Unchanged else if works(0) then Accepted else NotSaved
  }

  function Writes(stored: Option<State>, op: Op): seq<State> {
    match op
    case CloneRelease(p, upstream, works) =>
      var first := if stored.None? then 1 else 0;
      (if stored.None? && upstream && works(0) then [Available] else [])
        + if Answered(stored, op) == Accepted then [Cloning] + Written(p.States(), works, first + 1) else []
    case ReExtract(extracted, works) =>
      if Answered(stored, op) == Accepted then Written([Extracting, if extracted then Ready else Cloned], works, 0) else []
    case ResetState(works) =>
      if Answered(stored, op) == Accepted then [Cloned] else []
  }

  /** `stored` is the record of one release, if there is one; `history` is all
      that was ever saved. */
  class Release {
    var stored: Option<State>
    var history: seq<State>

    constructor ()
      ensures stored == None && history == []
    { stored, history := None, []; }

    method Save(s: State, works: bool)
      modifies this
      ensures history == old(history) + Saved(s, works)
      ensures stored == Last(old(stored), Saved(s, works))
    {
      if works {
        stored := Some(s);
        history := history + [s];
      }
    }

    method Verify(p: Phases) returns (passes: bool)
      ensures passes <==> p.Passes()
    {
      var v := VerifyMirror(p.release.parse, p.gate.store, p.gate.meta, p.release.repo, p.release.tag, p.gate.refs, p.gate.cancelled);
      return v.Verified? && v.complete;
    }

    /** The goroutine: from the phases on every failure to save is ignored. */
    method Process(p: Phases, works: nat -> bool, k: nat)
      modifies this
      ensures history == old(history) + Written(p.States(), works, k)
      ensures stored == Last(old(stored), Written(p.States(), works, k))
    {
      PassageWritten(p, works, k);
      hide Written, Phases.ClonedOk, Phases.MirroredOk, Phases.Passes, Phases.States;
      if !p.ClonedOk() || !p.MirroredOk() {
        Save(Failed, works(k));
        return;
      }
      ThreeSaved(stored, history, Saved(Cloned, works(k)), Saved(Extracting, works(k + 1)), Saved(p.End(), works(k + 2)));
      hide Saved, Last;
      Save(Cloned, works(k));
      Save(Extracting, works(k + 1));
      if !p.extracted {
        Save(Cloned, works(k + 2));
        return;
      }
      var passes := Verify(p);
      if !passes {
        Save(Failed, works(k + 2));
        return;
      }
      Save(Ready, works(k + 2));
    }

    method CloneRelease(p: Phases, upstream: bool, works: nat -> bool) returns (a: Answer)
      modifies this
      ensures a == Answered(old(stored), Op.CloneRelease(p, upstream, works))
      ensures history == old(history) + Writes(old(stored), Op.CloneRelease(p, upstream, works))
      ensures stored == Last(old(stored), Writes(old(stored), Op.CloneRelease(p, upstream, works)))
    {
      hide Phases.States, Written;
      var first := 0;
      if stored.None? {
        if !upstream || !works(0) {
          return Unregistered;
        }
        Save(Available, true);
        first := 1;
      }
      if Busy(stored) {
        return Refused;
      }
      if !works(first) {
        return NotSaved;
      }
      Save(Cloning, true);
      Process(p, works, first + 1);
      return Accepted;
    }

    method ReExtract(extracted: bool, works: nat -> bool) returns (a: Answer)
      modifies this
      ensures a == Answered(old(stored), Op.ReExtract(extracted, works))
      ensures history == old(history) + Writes(old(stored), Op.ReExtract(extracted, works))
      ensures stored == Last(old(stored), Writes(old(stored), Op.ReExtract(extracted, works)))
    {
      if stored.None? {
        return Unregistered;
      }
      if Busy(stored) {
        return Refused;
      }
      TwoWritten(Extracting, if extracted then Ready else Cloned, works, 0);
      hide Written;
      Save(Extracting, works(0));
      Save(if extracted then Ready else Cloned, works(1));
      return Accepted;
    }

    method ResetState(works: nat -> bool) returns (a: Answer)
      modifies this
      ensures a == Answered(old(stored), Op.ResetState(works))
      ensures history == old(history) + Writes(old(stored), Op.ResetState(works))
      ensures stored == Last(old(stored), Writes(old(stored), Op.ResetState(works)))
    {
      if stored.None? {
        return Unregistered;
      }
      if !Busy(stored) {
        return Unchanged;
      }
      if !works(0) {
        return NotSaved;
      }
      Save(Cloned, true);
      return Accepted;
    }
  }

  /* ---- what a saved state means ---- */

  /** The record after some operations on a release that was not known. */
  function After(ops: seq<Op>): Option<State> {
    if ops == [] then None
    else Last(After(ops[..|ops|-1]), Writes(After(ops[..|ops|-1]), ops[|ops|-1]))
  }

  /** The gate passed, or there was no gate. */
  predicate MakesReady(op: Op) {
    match op
    case CloneRelease(p, _, _) => p.Fetched() && p.extracted && p.Passes()
    case ReExtract(extracted, _) => extracted
    case ResetState(_) => false
  }

  /** Clone and mirror returned nil, or nobody looked. */
  predicate MakesCloned(op: Op) {
    match op
    case CloneRelease(p, _, _) => p.Fetched()
    case ReExtract(extracted, _) => !extracted
    case ResetState(_) => true
  }

  lemma StatesMean(p: Phases)
    ensures Ready in p.States() ==> p.Fetched() && p.extracted && p.Passes()
    ensures Cloned in p.States() ==> p.Fetched()
  {
    hide Phases.Fetched, Phases.Passes;
  }

  lemma WritesMean(stored: Option<State>, op: Op)
    requires Writes(stored, op) != []
    ensures Last(stored, Writes(stored, op)) == Some(Ready) ==> MakesReady(op)
    ensures Last(stored, Writes(stored, op)) == Some(Cloned) ==> MakesCloned(op)
  {
    hide Written, Phases.States, Phases.Fetched, Phases.Passes;
    var last := Last(stored, Writes(stored, op)).value;
    LastOf(stored, [], Writes(stored, op));
    match op
    case CloneRelease(p, _, works) =>
      WrittenAreThose(p.States(), works, if stored.None? then 2 else 1);
      StatesMean(p);
      assert last == Available || last == Cloning || last in p.States();
    case ReExtract(extracted, works) =>
      var states := [Extracting, if extracted then Ready else Cloned];
      WrittenAreThose(states, works, 0);
      assert last in states;
    case ResetState(_) =>
  }

  /** Over every history: a release that is ready was made so by a passage whose
      gate passed, or by a re-extraction, and nothing was saved since; and one
      that is cloned by a passage whose clone and mirror phases returned nil, by a
      failed re-extraction, or by a reset. */
  lemma {:induction false} StateMeans(ops: seq<Op>) returns (k: nat)
    requires After(ops) == Some(Ready) || After(ops) == Some(Cloned)
    ensures k < |ops| && After(ops[..k+1]) == After(ops)
    ensures if After(ops) == Some(Ready) then MakesReady(ops[k]) else MakesCloned(ops[k])
    ensures forall i :: k < i < |ops| ==> Writes(After(ops[..i]), ops[i]) == []
  {
    hide Writes, MakesReady, MakesCloned;
    var n := |ops| - 1;
    var before := ops[..n];
    if Writes(After(before), ops[n]) == [] {
      k := StateMeans(before);
      assert before[..k+1] == ops[..k+1];
      forall i | k < i < |ops| ensures Writes(After(ops[..i]), ops[i]) == [] {
        if i < n {
          assert before[..i] == ops[..i];
        }
      }
    } else {
      k := n;
      WritesMean(After(before), ops[n]);
      assert ops[..n+1] == ops;
    }
  }
  /** The law of the source, "ready is verified", fails exactly through
      `ReExtract`: whatever the stores hold, it makes any release ready that is
      not being processed. */
  lemma ReExtractSkipsTheGate(ops: seq<Op>, works: nat -> bool)
    requires After(ops).Some? && !Busy(After(ops)) && works(1)
    ensures After(ops + [ReExtract(true, works)]) == Some(Ready)
  {
    assert (ops + [ReExtract(true, works)])[..|ops|] == ops;
    TwoWritten(Extracting, Ready, works, 0);
  }

  lemma LastOfThree(prefix: seq<State>, last: State, w0: bool, w1: bool, w2: bool)
    requires last != Cloning && last != Extracting
    ensures var all := prefix + ([Cloning] + (Saved(Cloned, w0) + Saved(Extracting, w1) + Saved(last, w2)));
      Busy(Last(None, all)) <==> !w2 && (w1 || !w0)
  {
  }

  lemma LastOfOne(prefix: seq<State>, last: State, w: bool)
    requires last != Cloning && last != Extracting
    ensures Busy(Last(None, prefix + ([Cloning] + Saved(last, w)))) <==> !w
  {
  }

  lemma LastOfSome(stored: Option<State>, written: seq<State>)
    requires written != []
    ensures Last(stored, written) == Last(None, written)
  {
  }

  /** A passage of `CloneRelease` leaves the record stuck exactly if its last save
      fails while `cloning` or `extracting` is what is stored. */
  lemma StuckExactly(stored: Option<State>, op: Op)
    requires op.CloneRelease? && Answered(stored, op) == Accepted
    ensures var k := if stored.None? then 2 else 1;
      Busy(Last(stored, Writes(stored, op))) <==>
        if op.p.Fetched() then !op.works(k + 2) && (op.works(k + 1) || !op.works(k)) else !op.works(k)
  {
    var k := if stored.None? then 2 else 1;
    var prefix := if stored.None? then [Available] else [];
    PassageWritten(op.p, op.works, k);
    EndNotBusy(op.p);
    hide Written, Phases.Fetched, Phases.End, Phases.States;
    assert Writes(stored, op) == prefix + ([Cloning] + Written(op.p.States(), op.works, k));
    LastOfSome(stored, Writes(stored, op));
    hide Writes, Answered, Last, Busy, Saved;
    if !op.p.Fetched() {
      LastOfOne(prefix, op.p.End(), op.works(k));
    } else {
      LastOfThree(prefix, op.p.End(), op.works(k), op.works(k + 1), op.works(k + 2));
    }
  }

  lemma EndNotBusy(p: Phases)
    ensures p.End() != Cloning && p.End() != Extracting && (!p.Fetched() ==> p.End() == Failed)
  {
    hide Phases.Fetched, Phases.Passes;
  }

  /** A release is accepted exactly if it is not in work, can be registered if need
      be, and its first saves work. */
  lemma AcceptedExactly(stored: Option<State>, p: Phases, upstream: bool, works: nat -> bool)
    ensures Answered(stored, CloneRelease(p, upstream, works)) == Accepted <==>
      && stored != Some(Cloning) && stored != Some(Extracting) && works(0)
      && (stored == None ==> upstream && works(1))
    ensures Answered(stored, CloneRelease(p, upstream, works)) == Refused <==>
      stored == Some(Cloning) || stored == Some(Extracting)
    ensures Answered(stored, CloneRelease(p, upstream, works)) == Accepted ==>
      var written := Writes(stored, CloneRelease(p, upstream, works));
      if stored.None? then |written| >= 2 && written[0] == Available && written[1] == Cloning
      else |written| >= 1 && written[0] == Cloning
    ensures Answered(stored, CloneRelease(p, upstream, works)) != Accepted ==>
      Writes(stored, CloneRelease(p, upstream, works)) == if stored == None && upstream && works(0) then [Available] else []
  {
  }

  /** A re-extraction is accepted for every known release that is not in work, a reset
      changes only a known release that is. */
  lemma OthersExactly(stored: Option<State>, extracted: bool, works: nat -> bool)
    ensures Answered(stored, ReExtract(extracted, works)) ==
      match stored case None => Unregistered case Some(Cloning) => Refused case Some(Extracting) => Refused case Some(_) => Accepted
    ensures Answered(stored, ResetState(works)) ==
      match stored
      case None => Unregistered
      case Some(s) => if s != Cloning && s != Extracting then Unchanged else if works(0) then Accepted else NotSaved
    ensures Answered(stored, ReExtract(extracted, works)) == Accepted ==>
      Writes(stored, ReExtract(extracted, works)) ==
        Saved(Extracting, works(0)) + Saved(if extracted then Ready else Cloned, works(1))
    ensures Answered(stored, ReExtract(extracted, works)) != Accepted ==> Writes(stored, ReExtract(extracted, works)) == []
    ensures Writes(stored, ResetState(works)) == if Answered(stored, ResetState(works)) == Accepted then [Cloned] else []
  {
    TwoWritten(Extracting, if extracted then Ready else Cloned, works, 0);
  }

  /** Such a release is refused until it is reset, and the reset calls it cloned. */
  lemma ResetUnblocks(stored: Option<State>, works: nat -> bool, op: Op)
    requires Busy(stored) && works(0) && (op.CloneRelease? || op.ReExtract?)
    ensures Answered(stored, op) == Refused && Writes(stored, op) == []
    ensures Last(stored, Writes(stored, ResetState(works))) == Some(Cloned)
  {
  }

  /* ---- when the gate passes ---- */

  /** The phases are real runs over the same hash and decoder. */
  ghost predicate Legal(p: Phases) {
    && p.release.kind.Release? && Clone.IsRun(p.release, p.clone)
    && (p.refs.Some? && p.refs.value != [] ==>
          && WorkerPool.IsRun(p.pool, p.mirror) && multiset(p.pool.jobs) == multiset(p.refs.value)
          && p.pool.sha == p.release.sha && p.pool.parse == p.release.parse)
  }

  /** From the clone phase to the gate no blob is deleted, the tag is not moved,
      the context is not cancelled, and the references read twice are the same. */
  ghost predicate Undisturbed(p: Phases) {
    && p.clone != [] && p.clone[|p.clone|-1].barrier.store.Keys <= p.gate.store.Keys
    && (p.mirror != [] ==> p.mirror[|p.mirror|-1].store.Keys <= p.gate.store.Keys && !p.mirror[|p.mirror|-1].cancelled)
    && Blobs.ContentAddressed(p.release.sha, p.gate.store)
    && p.gate.meta.Get(p.release.repo, p.release.tag).Some?
    && p.gate.meta.Get(p.release.repo, p.release.tag).value.digest == p.release.Digest()
    && p.refs.Some? && p.gate.refs.Some? && multiset(p.gate.refs.value) == multiset(p.refs.value)
    && p.gate.cancelled.None?
  }

  ghost predicate HonestUpstream(p: Phases) {
    && NoCollision(p.release.sha, p.release.bytes)
    && forall x :: x in p.pool.jobs ==> Honest(p.pool.Image(x.ref), ParseImageRef(x.ref).ref)
  }

  /** No component names its config by an invalid digest. */
  predicate ConfigsValid(p: Phases)
    requires p.refs.Some?
  {
    forall x :: x in p.refs.value ==> ConfigValid(p.pool.Image(x.ref))
  }

  lemma SameServed(p: Phases, release: Clone.Manifest, xs: seq<Component>, ys: seq<Component>)
    requires multiset(xs) == multiset(ys)
    ensures MirrorComplete(p.release.parse, p.gate.store, release, xs) <==> MirrorComplete(p.release.parse, p.gate.store, release, ys)
    ensures SelfContained(p.release.parse, p.gate.store, release, xs) <==> SelfContained(p.release.parse, p.gate.store, release, ys)
  {
    hide Served, Ships, BlobsThere;
    assert forall i :: 0 <= i < |xs| ==> xs[i] in multiset(ys);
    assert forall i :: 0 <= i < |ys| ==> ys[i] in multiset(xs);
  }

  /** When the phases before it succeed, the gate passes, and the mirror is
      self-contained, exactly if every component config can be stored. */
  lemma GateExactly(p: Phases)
    requires Legal(p) && Undisturbed(p) && HonestUpstream(p) && p.Fetched()
    ensures p.Manifest() == Some(p.release.Parsed())
    ensures p.Passes() <==> ConfigsValid(p)
    ensures SelfContained(p.release.parse, p.gate.store, p.release.Parsed(), p.gate.refs.value) <==> ConfigsValid(p)
  {
    var xs := p.refs.value;
    ReleaseIsThere(p.release, p.clone, p.gate.meta, p.gate.store);
    SameServed(p, p.release.Parsed(), xs, p.gate.refs.value);
    if xs == [] {
      assert AllServed(p.release.parse, p.gate.store, xs);
    } else {
      PipelineIsComplete(p.release, p.clone, p.pool, p.mirror, p.gate.meta, p.gate.store);
      SameServed(p, p.release.Parsed(), p.pool.jobs, xs);
      assert forall x :: x in xs <==> x in multiset(p.pool.jobs);
    }
  }

  /** A gate that is interrupted, or cannot read the references, never passes. */
  lemma InterruptedGateFails(p: Phases)
    requires p.gate.refs.None? || (p.gate.cancelled.Some? && p.gate.cancelled.value < |p.gate.refs.value|)
    ensures !p.Passes() && (p.Fetched() && p.extracted ==> p.End() == Failed)
  {
  }

  /** What `CloneRelease` leaves in the record when all saves work: ready exactly
      if all phases succeed and all configs can be stored, and then the mirror is
      self-contained. */
  lemma ReadyExactly(stored: Option<State>, p: Phases, upstream: bool, works: nat -> bool)
    requires Legal(p) && HonestUpstream(p) && forall k :: works(k)
    requires p.Fetched() ==> Undisturbed(p)
    requires Answered(stored, CloneRelease(p, upstream, works)) == Accepted
    ensures Last(stored, Writes(stored, CloneRelease(p, upstream, works))) == Some(
      if !p.Fetched() then Failed
      else if !p.extracted then Cloned
      else if ConfigsValid(p) then Ready else Failed)
    ensures Last(stored, Writes(stored, CloneRelease(p, upstream, works))) == Some(Ready) ==>
      SelfContained(p.release.parse, p.gate.store, p.release.Parsed(), p.gate.refs.value)
  {
    if p.Fetched() {
      GateExactly(p);
    }
    AllSaved(stored, p, upstream, works);
    hide Legal, HonestUpstream, Undisturbed, Phases.Fetched, Phases.Passes, Phases.States, ConfigsValid, SelfContained, Writes;
  }

  lemma AllSaved(stored: Option<State>, p: Phases, upstream: bool, works: nat -> bool)
    requires Answered(stored, CloneRelease(p, upstream, works)) == Accepted && forall k :: works(k)
    ensures Last(stored, Writes(stored, CloneRelease(p, upstream, works))) == Some(p.End())
  {
    var op := CloneRelease(p, upstream, works);
    var k := if stored.None? then 2 else 1;
    var prefix := if stored.None? then [Available] else [];
    PassageWritten(p, works, k);
    assert works(k) && works(k + 1) && works(k + 2);
    hide Written, Phases.Fetched, Phases.End, Phases.States;
    assert Writes(stored, op) == prefix + ([Cloning] + Written(p.States(), works, k));
    hide Writes, Answered;
  }

  /** The state `cloned` is meant to say that the release is self-contained.  It
      does not if the context is cancelled before the mirroring: nothing is
      mirrored, the result is nil all the same, and the release is saved as cloned. */
  lemma CancelledIsCloned(p: Phases)
    requires Legal(p) && p.ClonedOk() && p.refs.Some? && p.refs.value != []
    requires p.mirror[0].cancelled && p.mirror[|p.mirror|-1].main.Returned?
    ensures p.Fetched() && p.States()[0] == Cloned && p.mirror[|p.mirror|-1].mirrored == []
  {
    WorkerPool.CancelledMirrorReturnsNil(p.pool, p.mirror, |p.mirror|-1);
  }

  /** So any list of components with any one of them missing can be saved as
      cloned, with any number of workers. */
  lemma ClonedButIncomplete(p: Phases, x: Component) returns (q: Phases)
    requires Legal(p) && p.ClonedOk() && p.refs == Some(p.pool.jobs) && x in p.pool.jobs
    requires p.pool.sha == p.release.sha && p.pool.parse == p.release.parse
    requires Lookup(p.gate.store, x.ref).None?
    ensures q == p.(mirror := q.mirror) && Legal(q) && q.mirror[|q.mirror|-1].store == q.gate.store
    ensures q.Fetched() && q.States()[0] == Cloned
    ensures forall release :: !SelfContained(q.release.parse, q.gate.store, release, q.refs.value)
  {
    var run := WorkerPool.CancelledRun(p.pool, p.gate.store);
    q := p.(mirror := run);
    hide WorkerPool.IsRun, Clone.IsRun;
    CancelledIsCloned(q);
    var i :| 0 <= i < |p.pool.jobs| && p.pool.jobs[i] == x;
    assert !Ships(q.release.parse, q.gate.store, q.refs.value[i]);
  }

  /* ---- a passage that succeeds ---- */

  /** What upstream has to offer for a release and its components. */
  ghost predicate Servable(rel: Clone.Job, pool: WorkerPool.Config) {
    && rel.kind.Release? && !IsDigestRef(rel.tag) && Clone.CanFinish(rel) && NoCollision(rel.sha, rel.bytes)
    && pool.sha == rel.sha && pool.parse == rel.parse && WorkerPool.CanMirror(pool)
    && forall x :: x in pool.jobs ==> Honest(pool.Image(x.ref), ParseImageRef(x.ref).ref)
  }

  /** From any content-addressed store that shows the tag, if at all, for a complete
      image, such a release can be cloned and mirrored, by the program's own steps alone: the
      phases of `ReadyExactly` exist. */
  lemma SomePassageSucceeds(rel: Clone.Job, pool: WorkerPool.Config, store: Blobs.Files, meta: Typed, now: int) returns (p: Phases)
    requires Servable(rel, pool) && Blobs.ContentAddressed(rel.sha, store)
    requires Clone.Shows(rel, meta) ==> Clone.Complete(rel, store)
    ensures p.release == rel && p.pool == pool && p.refs == p.gate.refs == Some(pool.jobs) && p.extracted
    ensures Clone.Finishes(rel, store, meta, p.clone)
    ensures WorkerPool.Mirrors(pool, p.clone[|p.clone|-1].barrier.store, p.mirror)
    ensures Legal(p) && Undisturbed(p) && HonestUpstream(p) && p.Fetched()
    ensures p.Passes() <==> ConfigsValid(p)
  {
    var clone, links := Clone.SomeRunFinishes(rel, store, meta, now);
    var cloned := clone[|clone|-1];
    Clone.RunGrows(rel, clone, |clone| - 1);
    var mirror := WorkerPool.SomeRunMirrors(pool, cloned.barrier.store, now);
    var gate := Gate(mirror[|mirror|-1].store, cloned.meta, Some(pool.jobs), None);
    p := Phases(rel, clone, Some(pool.jobs), pool, mirror, true, gate);
    ShownResolves(rel, meta, links, now);
    hide Clone.OwnRun, WorkerPool.OwnRun, Clone.IsRun, WorkerPool.IsRun, Clone.Complete, Clone.CanFinish, WorkerPool.CanMirror;
    GateExactly(p);
  }

  lemma ShownResolves(rel: Clone.Job, meta: Typed, links: set<string>, now: int)
    requires rel.kind.Release? && !IsDigestRef(rel.tag)
    ensures var m := Clone.WithRecord(rel, meta, now).LinkAll(links, rel.repo).Get(rel.repo, rel.tag);
      m.Some? && m.value.digest == rel.Digest()
  {
  }
}
