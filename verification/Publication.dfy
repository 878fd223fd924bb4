/** Publishing a dataset as two files, the normalized CSV and then its manifest, by any number of
    concurrent collectors any of which may die between any two filesystem steps.

    The only writes to the canonical paths are exclusive hard links of completed private files. */
module Publication {
  import opened Common

  type Pid = nat
  type Bytes = string
  type Time = nat

  /** The parts of a manifest that matter here: the digest of the CSV, the download time that a
      rerun takes over from an earlier manifest, and everything else. */
  datatype Manifest = Manifest(csvDigest: nat, downloadedAt: Time, rest: Bytes)

  datatype Phase =
    | Downloaded      // payloads built, nothing looked at
    | CheckCsv        // first pass over both paths
    | CheckManifest
    | PublishCsv      // second pass: publish or recheck
    | LinkCsv         // private file complete, about to be linked
    | PublishManifest
    | LinkManifest
    | Returned
    | Conflicted      // revision conflict or malformed prior manifest
    | Dead

  datatype Collector = Collector(phase: Phase, csv: Bytes, manifest: Manifest, now: Time)

  datatype World = World(csv: Option<Bytes>, manifest: Option<Manifest>, collectors: map<Pid, Collector>)

  datatype Event =
    | Arrive(p: Pid, csv: Bytes, rest: Bytes, now: Time)
    | ReadPrior(p: Pid)
    | Check(p: Pid)
    | Publish(p: Pid)
    | Link(p: Pid)
    | Die(p: Pid)

  function Put(w: World, p: Pid, c: Collector): World {
    w.(collectors := w.collectors[p := c])
  }

  predicate Acts(e: Event, phase: Phase) {
    match e
    case Arrive(_, _, _, _) => false
    case ReadPrior(_) => phase == Downloaded
    case Check(_) => phase in {CheckCsv, CheckManifest}
    case Publish(_) => phase in {PublishCsv, PublishManifest}
    case Link(_) => phase in {LinkCsv, LinkManifest}
    case Die(_) => phase !in {Returned, Conflicted}
  }

  predicate Enabled(w: World, e: Event) {
    if e.Arrive? then e.p !in w.collectors else e.p in w.collectors && Acts(e, w.collectors[e.p].phase)
  }

  /** Where a path that holds other bytes sends a collector, and one that is fine. */
  function Settled<T(==)>(file: Option<T>, payload: T, next: Phase): Phase {
    if file == Some(payload) then next else Conflicted
  }

  /** One filesystem step of one collector. */
  function Step(w: World, e: Event, digest: Bytes -> nat): World
    requires Enabled(w, e)
  {
    match e
    case Arrive(p, csv, rest, now) =>
      Put(w, p, Collector(Downloaded, csv, Manifest(digest(csv), now, rest), now))
    case ReadPrior(p) =>
      var c := w.collectors[p];
      if w.manifest.None? then Put(w, p, c.(phase := CheckCsv))
      else if w.manifest.value.downloadedAt > c.now then Put(w, p, c.(phase := Conflicted))
      else Put(w, p, c.(phase := CheckCsv, manifest := c.manifest.(downloadedAt := w.manifest.value.downloadedAt)))
    case Check(p) =>
      var c := w.collectors[p];
      if c.phase == CheckCsv then
        Put(w, p, c.(phase := if w.csv.None? then CheckManifest else Settled(w.csv, c.csv, CheckManifest)))
      else
        Put(w, p, c.(phase := if w.manifest.None? then PublishCsv else Settled(w.manifest, c.manifest, PublishCsv)))
    case Publish(p) =>
      var c := w.collectors[p];
      if c.phase == PublishCsv then
        Put(w, p, c.(phase := if w.csv.None? then LinkCsv else Settled(w.csv, c.csv, PublishManifest)))
      else
        Put(w, p, c.(phase := if w.manifest.None? then LinkManifest else Settled(w.manifest, c.manifest, Returned)))
    case Link(p) =>
      var c := w.collectors[p];
      if c.phase == LinkCsv then
        if w.csv.None? then Put(w.(csv := Some(c.csv)), p, c.(phase := PublishManifest))
        else Put(w, p, c.(phase := Settled(w.csv, c.csv, PublishManifest)))
      else
        if w.manifest.None? then Put(w.(manifest := Some(c.manifest)), p, c.(phase := Returned))
        else Put(w, p, c.(phase := Settled(w.manifest, c.manifest, Returned)))
    case Die(p) => Put(w, p, w.collectors[p].(phase := Dead))
  }

  ghost predicate IsRun(start: World, events: seq<Event>, end: World, digest: Bytes -> nat)
    decreases |events|
  {
    if events == [] then start == end
    else
      var n := |events| - 1;
      exists mid :: IsRun(start, events[..n], mid, digest) && Enabled(mid, events[n]) && end == Step(mid, events[n], digest)
  }

  // --------------------------------------------------------------- invariant

  /** What a collector's phase tells about the directory. */
  ghost predicate CollectorOk(w: World, c: Collector, digest: Bytes -> nat) {
    && c.manifest.csvDigest == digest(c.csv)
    && (c.phase in {PublishManifest, LinkManifest, Returned} ==> w.csv == Some(c.csv))
    && (c.phase == Returned ==> w.manifest == Some(c.manifest))
  }

  ghost predicate CollectorsOk(w: World, digest: Bytes -> nat) {
    forall p :: p in w.collectors ==> CollectorOk(w, w.collectors[p], digest)
  }

  /** A manifest is beside the CSV whose digest it records. */
  predicate Paired(w: World, digest: Bytes -> nat) {
    w.manifest.Some? ==> w.csv.Some? && w.manifest.value.csvDigest == digest(w.csv.value)
  }

  ghost predicate Extends(before: World, after: World) {
    && (before.csv.Some? ==> after.csv == before.csv)
    && (before.manifest.Some? ==> after.manifest == before.manifest)
    && (forall p :: p in before.collectors && before.collectors[p].phase == Returned ==>
          p in after.collectors && after.collectors[p] == before.collectors[p])
  }

  lemma StepKeeps(w: World, e: Event, digest: Bytes -> nat)
    requires CollectorsOk(w, digest) && Enabled(w, e)
    ensures CollectorsOk(Step(w, e, digest), digest) && Extends(w, Step(w, e, digest))
    ensures Paired(w, digest) ==> Paired(Step(w, e, digest), digest)
  {
    var v := Step(w, e, digest);
    forall q | q in v.collectors ensures CollectorOk(v, v.collectors[q], digest) {
      if q in w.collectors { assert CollectorOk(w, w.collectors[q], digest); }
    }
  }

  lemma {:induction false} RunKeeps(start: World, events: seq<Event>, end: World, digest: Bytes -> nat)
    requires IsRun(start, events, end, digest) && CollectorsOk(start, digest)
    ensures CollectorsOk(end, digest) && Extends(start, end)
    ensures Paired(start, digest) ==> Paired(end, digest)
    decreases |events|
  {
    if events != [] {
      var n := |events| - 1;
      var mid :| IsRun(start, events[..n], mid, digest) && Enabled(mid, events[n]) && end == Step(mid, events[n], digest);
      RunKeeps(start, events[..n], mid, digest);
      StepKeeps(mid, events[n], digest);
    }
  }

  // --------------------------------------------------------------- theorems

  /** Once a canonical path has bytes they never change, in any continuation whatever: this needs
      no assumption about how the directory came to be. */
  lemma {:induction false} BytesNeverChange(start: World, events: seq<Event>, end: World, digest: Bytes -> nat)
    requires IsRun(start, events, end, digest)
    ensures start.csv.Some? ==> end.csv == start.csv
    ensures start.manifest.Some? ==> end.manifest == start.manifest
    decreases |events|
  {
    if events != [] {
      hide Step, Enabled;
      var n := |events| - 1;
      var mid :| IsRun(start, events[..n], mid, digest) && Enabled(mid, events[n]) && end == Step(mid, events[n], digest);
      BytesNeverChange(start, events[..n], mid, digest);
      StepKeepsBytes(mid, events[n], digest);
    }
  }

  lemma StepKeepsBytes(w: World, e: Event, digest: Bytes -> nat)
    requires Enabled(w, e)
    ensures w.csv.Some? ==> Step(w, e, digest).csv == w.csv
    ensures w.manifest.Some? ==> Step(w, e, digest).manifest == w.manifest
  {
  }

  /** A manifest that the run published, or that was beside its CSV before, is never without its
      CSV, whose digest it records; so from an empty directory none ever is. */
  lemma ManifestImpliesCsv(start: World, events: seq<Event>, w: World, digest: Bytes -> nat)
    requires start.collectors == map[] && IsRun(start, events, w, digest) && w.manifest.Some?
    requires start.manifest.Some? ==> Paired(start, digest)
    ensures w.csv.Some? && w.manifest.value.csvDigest == digest(w.csv.value)
  {
    RunKeeps(start, events, w, digest);
  }

  /** A normal return means that both paths hold that collector's bytes, then and for ever after,
      whatever files the directory held before the first collector came. */
  lemma ReturnIsForEver(
    start: World, events: seq<Event>, w: World, p: Pid, later: seq<Event>, end: World, digest: Bytes -> nat)
    requires start.collectors == map[] && IsRun(start, events, w, digest)
    requires p in w.collectors && w.collectors[p].phase == Returned
    requires IsRun(w, later, end, digest)
    ensures w.csv == end.csv == Some(w.collectors[p].csv)
    ensures w.manifest == end.manifest == Some(w.collectors[p].manifest)
  {
    RunKeeps(start, events, w, digest);
    assert CollectorOk(w, w.collectors[p], digest);
    RunKeeps(w, later, end, digest);
  }

  /** Hence two collectors that both return have published the same two files. */
  lemma ReturnsAgree(start: World, events: seq<Event>, w: World, p: Pid, q: Pid, digest: Bytes -> nat)
    requires start.collectors == map[] && IsRun(start, events, w, digest)
    requires p in w.collectors && w.collectors[p].phase == Returned
    requires q in w.collectors && w.collectors[q].phase == Returned
    ensures w.collectors[p].csv == w.collectors[q].csv && w.collectors[p].manifest == w.collectors[q].manifest
  {
    RunKeeps(start, events, w, digest);
    assert CollectorOk(w, w.collectors[p], digest) && CollectorOk(w, w.collectors[q], digest);
  }

  // ------------------------------------------------------------------ repair

  /** The steps of one collector left alone from its arrival on. */
  function Alone(w: World, p: Pid, csv: Bytes, rest: Bytes, now: Time, digest: Bytes -> nat): (end: World)
    requires p !in w.collectors
    ensures p in end.collectors
  {
    Finish(Step(w, Arrive(p, csv, rest, now), digest), p, 7, digest)
  }

  function Next(phase: Phase, p: Pid): (e: Event)
    ensures phase !in {Returned, Conflicted, Dead} ==> Acts(e, phase) && e.p == p && !e.Arrive?
  {
    match phase
    case Downloaded => ReadPrior(p)
    case CheckCsv => Check(p)
    case CheckManifest => Check(p)
    case PublishCsv => Publish(p)
    case PublishManifest => Publish(p)
    case _ => Link(p)
  }

  /** Up to `fuel` further steps; seven reach the end of every path. */
  function Finish(w: World, p: Pid, fuel: nat, digest: Bytes -> nat): (end: World)
    requires p in w.collectors
    ensures p in end.collectors
    decreases fuel
  {
    var phase := w.collectors[p].phase;
    if fuel == 0 || phase in {Returned, Conflicted, Dead} then w
    else
      var e := Next(phase, p);
      Finish(Step(w, e, digest), p, fuel - 1, digest)
  }

  /** Rerunning after a loss: a collector left alone returns exactly when each path is empty or
      already holds its bytes, up to a recorded download time that is not in its future and that it
      takes over; otherwise it refuses and changes nothing. */
  lemma RepairsExactlyWhatIsMissing(w: World, p: Pid, csv: Bytes, rest: Bytes, now: Time, digest: Bytes -> nat)
    requires p !in w.collectors
    ensures var end, m := Alone(w, p, csv, rest, now, digest), w.manifest;
            if (w.csv == None || w.csv == Some(csv)) &&
               (m == None || (m.value.csvDigest == digest(csv) && m.value.rest == rest && m.value.downloadedAt <= now))
            then
              && end.collectors[p].phase == Returned && end.csv == Some(csv)
              && end.manifest == if m == None then Some(Manifest(digest(csv), now, rest)) else m
            else end.collectors[p].phase == Conflicted && end.csv == w.csv && end.manifest == m
  {
    var w1 := Step(w, Arrive(p, csv, rest, now), digest);
    var w2 := Step(w1, ReadPrior(p), digest);
    assert Finish(w1, p, 7, digest) == Finish(w2, p, 6, digest);
    if w2.collectors[p].phase == CheckCsv {
      var w3 := Step(w2, Check(p), digest);
      assert Finish(w2, p, 6, digest) == Finish(w3, p, 5, digest);
      if w3.collectors[p].phase == CheckManifest {
        var w4 := Step(w3, Check(p), digest);
        assert Finish(w3, p, 5, digest) == Finish(w4, p, 4, digest);
        if w4.collectors[p].phase == PublishCsv {
          PublishesBoth(w4, p, digest);
        }
      }
    }
  }

  /** However others interfere, a collector is refused only where a path holds other bytes than the
      ones it offers at that moment. */
  lemma RefusedOnlyByOtherBytes(w: World, e: Event, digest: Bytes -> nat)
    requires Enabled(w, e) && !e.Arrive? && !e.Die? && w.collectors[e.p].phase != Conflicted
    requires e.ReadPrior? ==> w.collectors[e.p].manifest.downloadedAt == w.collectors[e.p].now
    ensures var c := w.collectors[e.p];
            Step(w, e, digest).collectors[e.p].phase == Conflicted ==>
              (w.csv != None && w.csv != Some(c.csv)) || (w.manifest != None && w.manifest != Some(c.manifest))
  {
  }

  lemma PublishesBoth(w: World, p: Pid, digest: Bytes -> nat)
    requires p in w.collectors && w.collectors[p].phase == PublishCsv
    requires w.csv.None? || w.csv == Some(w.collectors[p].csv)
    requires w.manifest.None? || w.manifest == Some(w.collectors[p].manifest)
    ensures var end := Finish(w, p, 4, digest);
            end.collectors[p].phase == Returned &&
            end.csv == Some(w.collectors[p].csv) && end.manifest == Some(w.collectors[p].manifest)
  {
    hide Finish, Step;
    var w1 := Step(w, Publish(p), digest);
    AfterPublishCsv(w, p, digest);
    FinishStep(w, p, 4, digest);
    if w.csv.None? {
      var w2 := Step(w1, Link(p), digest);
      AfterLinkCsv(w1, p, digest);
      FinishStep(w1, p, 3, digest);
      PublishesManifest(w2, p, 2, digest);
    } else {
      PublishesManifest(w1, p, 3, digest);
    }
  }

  lemma AfterPublishCsv(w: World, p: Pid, digest: Bytes -> nat)
    requires p in w.collectors && w.collectors[p].phase == PublishCsv
    requires w.csv.None? || w.csv == Some(w.collectors[p].csv)
    ensures var c := w.collectors[p];
            Step(w, Publish(p), digest) ==
            Put(w, p, c.(phase := if w.csv.None? then LinkCsv else PublishManifest))
  {
  }

  lemma AfterLinkCsv(w: World, p: Pid, digest: Bytes -> nat)
    requires p in w.collectors && w.collectors[p].phase == LinkCsv && w.csv.None?
    ensures var c := w.collectors[p];
            Step(w, Link(p), digest) == Put(w.(csv := Some(c.csv)), p, c.(phase := PublishManifest))
  {
  }

  lemma PublishesManifest(w: World, p: Pid, fuel: nat, digest: Bytes -> nat)
    requires p in w.collectors && w.collectors[p].phase == PublishManifest && fuel >= 2
    requires w.manifest.None? || w.manifest == Some(w.collectors[p].manifest)
    ensures var end := Finish(w, p, fuel, digest);
            end.collectors[p].phase == Returned &&
            end.csv == w.csv && end.manifest == Some(w.collectors[p].manifest)
  {
    hide Finish;
    var w1 := Step(w, Publish(p), digest);
    FinishStep(w, p, fuel, digest);
    if w.manifest.None? {
      var w2 := Step(w1, Link(p), digest);
      FinishStep(w1, p, fuel - 1, digest);
      FinishEnds(w2, p, fuel - 2, digest);
    } else {
      FinishEnds(w1, p, fuel - 1, digest);
    }
  }

  lemma FinishStep(w: World, p: Pid, fuel: nat, digest: Bytes -> nat)
    requires p in w.collectors && w.collectors[p].phase !in {Returned, Conflicted, Dead} && fuel > 0
    ensures Finish(w, p, fuel, digest) == Finish(Step(w, Next(w.collectors[p].phase, p), digest), p, fuel - 1, digest)
  {
    hide Step;
  }

  lemma FinishEnds(w: World, p: Pid, fuel: nat, digest: Bytes -> nat)
    requires p in w.collectors && w.collectors[p].phase == Returned
    ensures Finish(w, p, fuel, digest) == w
  {
  }

  // ------------------------------------------------- the tail of the collector

  /** One series directory; the sequential code of a collector that nobody disturbs. */
  class Series {
    var csv: Option<Bytes>
    var manifest: Option<Manifest>

    constructor (csv: Option<Bytes>, manifest: Option<Manifest>)
      ensures this.csv == csv && this.manifest == manifest
    {
      this.csv, this.manifest := csv, manifest;
    }

    /** `os.link` of a completed private file: never overwrites. */
    method LinkCsv(payload: Bytes) returns (ok: bool)
      modifies this`csv
      ensures ok <==> old(csv).None? || old(csv) == Some(payload)
      ensures csv == if old(csv).None? then Some(payload) else old(csv)
    {
      if csv.None? {
        csv := Some(payload);
        return true;
      }
      return csv.value == payload;
    }

    method LinkManifest(payload: Manifest) returns (ok: bool)
      modifies this`manifest
      ensures ok <==> old(manifest).None? || old(manifest) == Some(payload)
      ensures manifest == if old(manifest).None? then Some(payload) else old(manifest)
    {
      if manifest.None? {
        manifest := Some(payload);
        return true;
      }
      return manifest.value == payload;
    }

    /** The sequential code meets the same specification as the collector of the protocol. */
    method Collect(mine: Bytes, rest: Bytes, now: Time, digest: Bytes -> nat) returns (ok: bool)
      modifies this
      ensures ok <==>
                && (old(csv) == None || old(csv) == Some(mine))
                && (old(manifest).Some? ==>
                      var m := old(manifest).value;
                      m.csvDigest == digest(mine) && m.rest == rest && m.downloadedAt <= now)
      ensures ok ==> csv == Some(mine)
      ensures ok ==> manifest == if old(manifest).Some? then old(manifest) else Some(Manifest(digest(mine), now, rest))
      ensures !ok ==> csv == old(csv) && manifest == old(manifest)
    {
      var offered := Manifest(digest(mine), now, rest);
      if manifest.Some? {
        if manifest.value.downloadedAt > now {
          return false;
        }
        offered := offered.(downloadedAt := manifest.value.downloadedAt);
      }
      if csv.Some? && csv.value != mine {
        return false;
      }
      if manifest.Some? && manifest.value != offered {
        return false;
      }
      if csv.None? {
        var linked := LinkCsv(mine);
        assert linked;
      }
      if manifest.None? {
        var linked := LinkManifest(offered);
        assert linked;
      }
      return true;
    }
  }
}
