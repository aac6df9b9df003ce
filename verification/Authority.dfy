/** Source authority (include/servingobs/model/source_authority.hpp, src/authority.cpp).
    The registry is keyed by a mix of source and worker; every statement here holds for whatever
    function does the mixing. */
module Authority {
  import opened Types
  import opened Identity
  import opened Observations

  const HEALTHY: Health := 1
  const RESTARTING: Health := 5

  datatype SourceAuthority = SourceAuthority(
    source: Id128, worker: Id128,
    epoch: u64, srcGen: u64, obsGen: u64, boot: Id128,
    lastSeq: u64, lastObsTs: u64, hasLastTs: bool,
    health: Health, registered: bool, restartCount: int)

  datatype Decision =
    | Accepted | StaleEpoch | StaleSourceGeneration | StaleObservationGeneration | StaleBoot
    | DuplicateSequence | OutOfOrderSequence | UnregisteredSource

  /** Why an observation was not accepted, with the numbers its message shows. */
  datatype Reason =
    | NoReason
    | DuplicateObservation(id: Id128)
    | NotRegistered(source: Id128, worker: Id128)
    | EpochBelow(epoch: u64, current: u64)
    | SourceGenerationBelow(generation: u64, current: u64)
    | SourceGenerationAhead
    | ObservationGenerationBelow(generation: u64, current: u64)
    | ObservationGenerationAhead
    | OtherBoot(boot: Id128, currentBoot: Id128)
    | SequenceBelow(seqNum: u64, last: u64)
    | SequenceRepeated(seqNum: u64)

  /** Renders a refusal as the text that is sent back and kept. */
  type Wording = Reason -> Bytes

  type Registry = map<u64, SourceAuthority>
  type KeyFunction = (Id128, Id128) -> u64

  function KeyOf(keyOf: KeyFunction, o: Observation): u64 {
    keyOf(o.source, o.worker)
  }

  /** Same boot and generations as the current authority: an idempotent re-registration. */
  predicate Repeats(a: SourceAuthority, o: Observation) {
    a.boot == o.boot && a.srcGen == o.srcGen && a.obsGen == o.obsGen
  }

  function FreshAuthority(o: Observation, epoch: u64, restarts: int): SourceAuthority {
    SourceAuthority(o.source, o.worker, epoch, o.srcGen, o.obsGen, o.boot, 0, 0, false,
                    if o.hasHealth then o.health else HEALTHY, true, restarts)
  }

  /** Registration never refuses: anything but a repetition replaces the authority. */
  function Register(reg: Registry, k: u64, o: Observation, epoch: u64, force: bool): SourceAuthority {
    if k in reg && !force && Repeats(reg[k], o)
    then reg[k].(epoch := epoch, health := if o.hasHealth then o.health else reg[k].health)
    else FreshAuthority(o, epoch, if k in reg then reg[k].restartCount + 1 else 0)
  }

  /** The checks in order, each with the reason it gives. */
  function Judge(reg: Registry, k: u64, o: Observation): (Decision, Reason) {
    if k !in reg then (UnregisteredSource, NotRegistered(o.source, o.worker))
    else
      var a := reg[k];
      if o.epoch < a.epoch then (StaleEpoch, EpochBelow(o.epoch, a.epoch))
      else if o.srcGen < a.srcGen then (StaleSourceGeneration, SourceGenerationBelow(o.srcGen, a.srcGen))
      else if o.srcGen > a.srcGen then (StaleSourceGeneration, SourceGenerationAhead)
      else if o.obsGen < a.obsGen then (StaleObservationGeneration, ObservationGenerationBelow(o.obsGen, a.obsGen))
      else if o.obsGen > a.obsGen then (StaleObservationGeneration, ObservationGenerationAhead)
      else if o.boot != a.boot then (StaleBoot, OtherBoot(o.boot, a.boot))
      else if o.seqNum < a.lastSeq then (OutOfOrderSequence, SequenceBelow(o.seqNum, a.lastSeq))
      else if o.seqNum == a.lastSeq && a.lastSeq != 0 then (DuplicateSequence, SequenceRepeated(o.seqNum))
      else (Accepted, NoReason)
  }

  /** The authority after accepting an observation. */
  function Advance(a: SourceAuthority, o: Observation): SourceAuthority {
    a.(lastSeq := if o.seqNum > a.lastSeq then o.seqNum else a.lastSeq,
       lastObsTs := if o.hasObsTs then o.obsTs else a.lastObsTs,
       hasLastTs := a.hasLastTs || o.hasObsTs,
       health := if o.hasHealth then o.health else a.health)
  }

  function Validate(reg: Registry, k: u64, o: Observation): Registry {
    if Judge(reg, k, o).0.Accepted? && k in reg then reg[k := Advance(reg[k], o)] else reg
  }

  function Restarted(reg: Registry, k: u64, source: Id128, worker: Id128, boot: Id128, epoch: u64): SourceAuthority {
    if k in reg
    then SourceAuthority(source, worker, epoch, (reg[k].srcGen + 1) % TWO_64, (reg[k].obsGen + 1) % TWO_64,
                         boot, 0, 0, false, RESTARTING, true, reg[k].restartCount + 1)
    else SourceAuthority(source, worker, epoch, 1, 1, boot, 0, 0, false, RESTARTING, true, 0)
  }

  class SourceRegistry {
    const keyOf: KeyFunction
    var byKey: Registry

    constructor (keyOf: KeyFunction)
      ensures byKey == map[] && this.keyOf == keyOf
    {
      this.keyOf := keyOf;
      byKey := map[];
    }

    method RegisterSource(o: Observation, epoch: u64, force: bool) returns (a: SourceAuthority)
      modifies this
      ensures var k := KeyOf(keyOf, o);
              a == Register(old(byKey), k, o, epoch, force) && byKey == old(byKey)[k := a]
    {
      var k := keyOf(o.source, o.worker);
      if k in byKey {
        a := byKey[k];
        if !force && a.boot == o.boot && a.srcGen == o.srcGen && a.obsGen == o.obsGen {
          a := a.(epoch := epoch);
          if o.hasHealth { a := a.(health := o.health); }
          byKey := byKey[k := a];
          return;
        }
      }
      a := FreshAuthority(o, epoch, 0);
      if k in byKey { a := a.(restartCount := byKey[k].restartCount + 1); }
      byKey := byKey[k := a];
    }

    /** Only an accepted observation changes the registry, and then only its own entry. */
    method ValidateObservation(o: Observation) returns (d: Decision, why: Reason)
      modifies this
      ensures (d, why) == Judge(old(byKey), KeyOf(keyOf, o), o)
      ensures byKey == Validate(old(byKey), KeyOf(keyOf, o), o)
    {
      var k := keyOf(o.source, o.worker);
      if k !in byKey { return UnregisteredSource, NotRegistered(o.source, o.worker); }
      var a := byKey[k];
      if o.epoch < a.epoch { return StaleEpoch, EpochBelow(o.epoch, a.epoch); }
      if o.srcGen < a.srcGen { return StaleSourceGeneration, SourceGenerationBelow(o.srcGen, a.srcGen); }
      if o.srcGen > a.srcGen { return StaleSourceGeneration, SourceGenerationAhead; }
      if o.obsGen < a.obsGen { return StaleObservationGeneration, ObservationGenerationBelow(o.obsGen, a.obsGen); }
      if o.obsGen > a.obsGen { return StaleObservationGeneration, ObservationGenerationAhead; }
      if o.boot != a.boot { return StaleBoot, OtherBoot(o.boot, a.boot); }
      if o.seqNum < a.lastSeq { return OutOfOrderSequence, SequenceBelow(o.seqNum, a.lastSeq); }
      if o.seqNum == a.lastSeq && a.lastSeq != 0 { return DuplicateSequence, SequenceRepeated(o.seqNum); }
      if o.seqNum > a.lastSeq { a := a.(lastSeq := o.seqNum); }
      if o.hasObsTs { a := a.(lastObsTs := o.obsTs, hasLastTs := true); }
      if o.hasHealth { a := a.(health := o.health); }
      byKey := byKey[k := a];
      return Accepted, NoReason;
    }

    method MarkRestart(source: Id128, worker: Id128, newBoot: Id128, epoch: u64) returns (a: SourceAuthority)
      modifies this
      ensures var k := keyOf(source, worker);
              a == Restarted(old(byKey), k, source, worker, newBoot, epoch) && byKey == old(byKey)[k := a]
    {
      var k := keyOf(source, worker);
      var srcGen, obsGen, restarts := 1, 1, 0;
      if k in byKey {
        srcGen := (byKey[k].srcGen + 1) % TWO_64;
        obsGen := (byKey[k].obsGen + 1) % TWO_64;
        restarts := byKey[k].restartCount + 1;
      }
      a := SourceAuthority(source, worker, epoch, srcGen, obsGen, newBoot, 0, 0, false, RESTARTING, true, restarts);
      byKey := byKey[k := a];
    }
  }

  // ------------------------------------------------------------ the acceptance frontier

  /** Lexicographic order on (source generation, sequence number). */
  predicate AtMost(g: u64, q: u64, g': u64, q': u64) {
    g < g' || (g == g' && q <= q')
  }

  predicate Below(g: u64, q: u64, g': u64, q': u64) {
    g < g' || (g == g' && q < q')
  }

  /** Acceptance in terms of the frontier: the envelope is current and the sequence number is new,
      except that 0 stays acceptable as long as nothing else has been accepted. */
  lemma AcceptanceExact(reg: Registry, k: u64, o: Observation)
    ensures Judge(reg, k, o).0.Accepted? <==>
            && k in reg && o.epoch >= reg[k].epoch && Repeats(reg[k], o)
            && (o.seqNum > reg[k].lastSeq || (o.seqNum == 0 && reg[k].lastSeq == 0))
    ensures Judge(reg, k, o).0.Accepted? ==>
            && AtMost(reg[k].srcGen, reg[k].lastSeq, o.srcGen, o.seqNum)
            && (o.seqNum > 0 ==> Below(reg[k].srcGen, reg[k].lastSeq, o.srcGen, o.seqNum))
            && var a := Validate(reg, k, o)[k]; a.srcGen == o.srcGen && a.lastSeq == o.seqNum
  {
  }

  // ------------------------------------------------------------ what each answer means

  /** The envelope is that of the entry up to its observation generation. */
  ghost predicate SameGenerations(a: SourceAuthority, o: Observation) {
    o.epoch >= a.epoch && o.srcGen == a.srcGen && o.obsGen == a.obsGen
  }

  /** When an observation gets a decision, and which numbers or identities the reason names. */
  ghost predicate Deserves(reg: Registry, k: u64, o: Observation, d: Decision, why: Reason) {
    if k !in reg then d == UnregisteredSource && why == NotRegistered(o.source, o.worker)
    else
      var a := reg[k];
      match d
      case UnregisteredSource => false
      case StaleEpoch => o.epoch < a.epoch && why == EpochBelow(o.epoch, a.epoch)
      case StaleSourceGeneration =>
        && o.epoch >= a.epoch && o.srcGen != a.srcGen
        && why == if o.srcGen < a.srcGen then SourceGenerationBelow(o.srcGen, a.srcGen) else SourceGenerationAhead
      case StaleObservationGeneration =>
        && o.epoch >= a.epoch && o.srcGen == a.srcGen && o.obsGen != a.obsGen
        && why == if o.obsGen < a.obsGen then ObservationGenerationBelow(o.obsGen, a.obsGen)
            else ObservationGenerationAhead
      case StaleBoot => SameGenerations(a, o) && o.boot != a.boot && why == OtherBoot(o.boot, a.boot)
      case OutOfOrderSequence =>
        SameGenerations(a, o) && o.boot == a.boot && o.seqNum < a.lastSeq && why == SequenceBelow(o.seqNum, a.lastSeq)
      case DuplicateSequence =>
        SameGenerations(a, o) && o.boot == a.boot && o.seqNum == a.lastSeq > 0 && why == SequenceRepeated(o.seqNum)
      case Accepted =>
        && SameGenerations(a, o) && o.boot == a.boot
        && (o.seqNum > a.lastSeq || o.seqNum == a.lastSeq == 0) && why == NoReason
  }

  /** An observation gets exactly the decision and the reason it deserves. */
  lemma JudgedExactly(reg: Registry, k: u64, o: Observation, d: Decision, why: Reason)
    ensures Judge(reg, k, o) == (d, why) <==> Deserves(reg, k, o, d, why)
  {
  }

  /** After an acceptance the entry stands at the observation and holds its time and health if it
      reports any; the rest of the entry and every other entry stay. A refusal changes nothing. */
  lemma ValidationEffect(reg: Registry, k: u64, o: Observation)
    ensures Judge(reg, k, o).0 != Accepted ==> Validate(reg, k, o) == reg
    ensures Judge(reg, k, o).0 == Accepted ==>
              && k in reg && Validate(reg, k, o).Keys == reg.Keys
              && (forall j :: j in reg && j != k ==> Validate(reg, k, o)[j] == reg[j])
              && var a, b := reg[k], Validate(reg, k, o)[k];
              && b.lastSeq == o.seqNum
              && (if o.hasObsTs then b.hasLastTs && b.lastObsTs == o.obsTs
                  else b.hasLastTs == a.hasLastTs && b.lastObsTs == a.lastObsTs)
              && b.health == (if o.hasHealth then o.health else a.health)
              && b.source == a.source && b.worker == a.worker && b.boot == a.boot
              && b.epoch == a.epoch && b.srcGen == a.srcGen && b.obsGen == a.obsGen
              && b.registered == a.registered && b.restartCount == a.restartCount
  {
  }

  /** The envelope is always the announced one. A repetition keeps the progress of the entry and its
      restart count; anything else starts over, one restart later. */
  lemma RegistrationEffect(reg: Registry, k: u64, o: Observation, epoch: u64, force: bool)
    ensures var b := Register(reg, k, o, epoch, force);
            && b.epoch == epoch && b.boot == o.boot && b.srcGen == o.srcGen && b.obsGen == o.obsGen
            && (o.hasHealth ==> b.health == o.health)
            && if k in reg && !force && reg[k].boot == o.boot && reg[k].srcGen == o.srcGen && reg[k].obsGen == o.obsGen
               then
                 && b.lastSeq == reg[k].lastSeq && b.lastObsTs == reg[k].lastObsTs && b.hasLastTs == reg[k].hasLastTs
                 && b.source == reg[k].source && b.worker == reg[k].worker && b.registered == reg[k].registered
                 && b.restartCount == reg[k].restartCount && (!o.hasHealth ==> b.health == reg[k].health)
               else
                 && b.lastSeq == 0 && b.lastObsTs == 0 && !b.hasLastTs
                 && b.source == o.source && b.worker == o.worker && b.registered
                 && b.restartCount == (if k in reg then reg[k].restartCount + 1 else 0)
                 && (!o.hasHealth ==> b.health == HEALTHY)
  {
  }

  /** Marking a restart installs the new boot under the next generations and forgets all progress. */
  lemma RestartEffect(reg: Registry, k: u64, source: Id128, worker: Id128, boot: Id128, epoch: u64)
    ensures var b := Restarted(reg, k, source, worker, boot, epoch);
            && b.source == source && b.worker == worker && b.boot == boot && b.epoch == epoch
            && b.lastSeq == 0 && b.lastObsTs == 0 && !b.hasLastTs && b.health == RESTARTING && b.registered
            && (k !in reg ==> b.srcGen == b.obsGen == 1 && b.restartCount == 0)
            && (k in reg ==>
                  && (b.srcGen == reg[k].srcGen + 1 || (b.srcGen == 0 && reg[k].srcGen == TWO_64 - 1))
                  && (b.obsGen == reg[k].obsGen + 1 || (b.obsGen == 0 && reg[k].obsGen == TWO_64 - 1))
                  && b.restartCount == reg[k].restartCount + 1)
  {
  }

  /** Repeats the current boot and generations, raises the source generation, or has nothing to lose. */
  predicate KeepsFrontier(a: SourceAuthority, o: Observation, force: bool) {
    || (!force && Repeats(a, o))
    || o.srcGen > a.srcGen
    || (o.srcGen == a.srcGen && a.lastSeq == 0)
  }

  /** Exactly then does re-registering not move the frontier back. */
  lemma RegistrationKeepsFrontier(reg: Registry, k: u64, o: Observation, epoch: u64, force: bool)
    requires k in reg
    ensures var a := Register(reg, k, o, epoch, force);
            AtMost(reg[k].srcGen, reg[k].lastSeq, a.srcGen, a.lastSeq) <==> KeepsFrontier(reg[k], o, force)
  {
  }

  // ------------------------------------------------------------ the key mix

  /** The code's 64-bit mix of source and worker. */
  function MixedKey(sourceHi: bv64, sourceLo: bv64, workerHi: bv64, workerLo: bv64): bv64 {
    var a := sourceHi ^ (sourceLo * 0x9e3779b97f4a7c15);
    var b := workerHi ^ (workerLo * 0x9e3779b97f4a7c15);
    a ^ (b + 0x9e3779b97f4a7c15 + (a << 6) + (a >> 2))
  }

  /** The key does not identify the pair it is made of: whatever the source, there is a partner for
      every other low word that shares its entry with every worker. */
  lemma KeysCollide(sourceHi: bv64, sourceLo: bv64, otherLo: bv64, workerHi: bv64, workerLo: bv64)
    ensures var otherHi := sourceHi ^ (sourceLo * 0x9e3779b97f4a7c15) ^ (otherLo * 0x9e3779b97f4a7c15);
            MixedKey(sourceHi, sourceLo, workerHi, workerLo) == MixedKey(otherHi, otherLo, workerHi, workerLo)
  {
    var x, y := sourceLo * 0x9e3779b97f4a7c15, otherLo * 0x9e3779b97f4a7c15;
    XorCancels(sourceHi, x, y);
  }

  lemma XorCancels(h: bv64, x: bv64, y: bv64)
    ensures (h ^ x ^ y) ^ y == h ^ x
  {
  }
}
