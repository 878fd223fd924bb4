/** The rotating, hash-chained diagnostic journal: append with rotation and pruning, recovery, and
    every run of these with crashes between filesystem steps. */
module DiagnosticJournal {
  import opened Arithmetic

  type Hash = string

  /** One journal line: whether it ends in a newline, its sequence number, the digest it records for
      its predecessor, the rest of its content, and its length in bytes. */
  datatype Row = Row(complete: bool, sequence: int, previous: Hash, content: string, size: nat)

  /** A rotated segment under the time-stamped name `name`. */
  datatype Segment = Segment(name: nat, rows: seq<Row>)

  datatype Active = Missing | Present(rows: seq<Row>)

  /** Rotated segments in sorted name order, and the active file. */
  datatype Disk = Disk(rotated: seq<Segment>, active: Active)

  /** What the running sampler remembers. */
  datatype Memory = Memory(sequence: int, digest: Hash)

  /** Sixty-four zeros, the digest before the first row. */
  const GENESIS := Memory(0, "0000000000000000000000000000000000000000000000000000000000000000")

  datatype Config = Config(digest: Row -> Hash, maxBytes: nat, maxSegments: nat) {
    predicate Valid() {
      maxBytes >= 1024 && 2 <= maxSegments <= 128
    }
  }

  // ------------------------------------------------------------ journal order

  function Bytes(rows: seq<Row>): (n: nat)
  {
    if rows == [] then 0 else Bytes(rows[..|rows| - 1]) + rows[|rows| - 1].size
  }

  function Flat(segments: seq<Segment>): (rows: seq<Row>)
  {
    if segments == [] then [] else Flat(segments[..|segments| - 1]) + segments[|segments| - 1].rows
  }

  function ActiveRows(a: Active): seq<Row> {
    if a.Present? then a.rows else []
  }

  /** All retained rows in the order recovery reads them. */
  function Rows(d: Disk): seq<Row> {
    Flat(d.rotated) + ActiveRows(d.active)
  }

  function Files(d: Disk): nat {
    |d.rotated| + (if d.active.Present? then 1 else 0)
  }

  predicate Linked(c: Config, before: Row, after: Row) {
    after.sequence == before.sequence + 1 && after.previous == c.digest(before)
  }

  /** Consecutive sequence numbers and matching digests over complete rows. */
  predicate Chained(c: Config, rows: seq<Row>) {
    && (forall i :: 0 <= i < |rows| ==> rows[i].complete && rows[i].sequence >= 1)
    && (forall i :: 0 < i < |rows| ==> Linked(c, rows[i - 1], rows[i]))
  }

  /** A whole chain, written out: every row complete and numbered from one upwards, each the
      successor of the one before and recording its digest. */
  lemma ChainedIs(c: Config, rows: seq<Row>)
    ensures Chained(c, rows) <==>
              && (forall i :: 0 <= i < |rows| ==> rows[i].complete && rows[i].sequence >= 1)
              && (forall i, j :: 0 <= i < j < |rows| && j == i + 1 ==>
                    rows[j].sequence == rows[i].sequence + 1 && rows[j].previous == c.digest(rows[i]))
  {
    if Chained(c, rows) {
      forall i, j | 0 <= i < j < |rows| && j == i + 1
        ensures rows[j].sequence == rows[i].sequence + 1 && rows[j].previous == c.digest(rows[i]) {
        assert Linked(c, rows[j - 1], rows[j]);
      }
    }
  }

  /** What a sampler that has just written the last retained row remembers. */
  function Remembered(c: Config, rows: seq<Row>): Memory {
    if rows == [] then GENESIS else Memory(rows[|rows| - 1].sequence, c.digest(rows[|rows| - 1]))
  }

  lemma {:induction false} FlatConcat(a: seq<Segment>, b: seq<Segment>)
    ensures Flat(a + b) == Flat(a) + Flat(b)
    decreases |b|
  {
    if b == [] {
      assert a + b == a;
    } else {
      var n := |b| - 1;
      FlatConcat(a, b[..n]);
      assert (a + b)[..|a + b| - 1] == a + b[..n] && (a + b)[|a + b| - 1] == b[n];
      assert Flat(a) + (Flat(b[..n]) + b[n].rows) == (Flat(a) + Flat(b[..n])) + b[n].rows;
    }
  }

  lemma FlatOne(s: Segment)
    ensures Flat([s]) == s.rows
  {
    assert [s][..0] == [];
  }

  lemma ChainedSuffix(c: Config, rows: seq<Row>, k: nat)
    requires Chained(c, rows) && k <= |rows|
    ensures Chained(c, rows[k..])
  {
    forall i | 0 < i < |rows[k..]| ensures Linked(c, rows[k..][i - 1], rows[k..][i]) {
      assert Linked(c, rows[k + i - 1], rows[k + i]);
    }
  }

  lemma {:induction false} SequenceIncreases(c: Config, rows: seq<Row>, i: nat, j: nat)
    requires Chained(c, rows) && i <= j < |rows|
    ensures rows[j].sequence == rows[i].sequence + (j - i)
    decreases j
  {
    if i < j {
      SequenceIncreases(c, rows, i, j - 1);
      assert Linked(c, rows[j - 1], rows[j]);
    }
  }

  // -------------------------------------------------------- filesystem steps

  /** `os.replace` onto a new name, and where that name then sorts. */
  function InsertSorted(segments: seq<Segment>, s: Segment): (r: seq<Segment>)
  {
    if segments == [] || segments[|segments| - 1].name < s.name then segments + [s]
    else if segments[|segments| - 1].name == s.name then segments[..|segments| - 1] + [s]
    else InsertSorted(segments[..|segments| - 1], s) + [segments[|segments| - 1]]
  }

  predicate Sorted(segments: seq<Segment>) {
    forall i, j :: 0 <= i < j < |segments| ==> segments[i].name < segments[j].name
  }

  /** The names stay sorted; the new segment is there, and of the others those under other names. */
  lemma {:induction false} InsertSortedMeans(segments: seq<Segment>, s: Segment)
    requires Sorted(segments)
    ensures Sorted(InsertSorted(segments, s))
    ensures forall x :: x in InsertSorted(segments, s) <==> x == s || (x in segments && x.name != s.name)
    decreases |segments|
  {
    hide Sorted;
    if segments == [] {
      SortedSnoc([], s);
      assert InsertSorted(segments, s) == [] + [s];
    } else {
      var n := |segments| - 1;
      var init, last := segments[..n], segments[n];
      SortedInit(segments);
      assert segments == init + [last];
      if last.name < s.name {
        SortedSnoc(segments, s);
      } else if last.name == s.name {
        SortedSnoc(init, s);
      } else {
        InsertSortedMeans(init, s);
        SortedSnoc(InsertSorted(init, s), last);
      }
    }
  }

  lemma SortedInit(segments: seq<Segment>)
    requires Sorted(segments) && segments != []
    ensures Sorted(segments[..|segments| - 1])
    ensures forall x :: x in segments[..|segments| - 1] ==> x.name < segments[|segments| - 1].name
  {
  }

  lemma SortedSnoc(segments: seq<Segment>, s: Segment)
    requires (segments == [] || Sorted(segments)) && forall x :: x in segments ==> x.name < s.name
    ensures Sorted(segments + [s])
  {
    var longer := segments + [s];
    forall i, j | 0 <= i < j < |longer| ensures longer[i].name < longer[j].name {
      if j == |segments| { assert segments[i] in segments; }
    }
  }

  function Rotate(d: Disk, name: nat): Disk
    requires d.active.Present?
  {
    Disk(InsertSorted(d.rotated, Segment(name, d.active.rows)), Missing)
  }

  function Prune(d: Disk): Disk
    requires d.rotated != []
  {
    d.(rotated := d.rotated[1..])
  }

  function WriteRow(d: Disk, row: Row): Disk {
    d.(active := Present(ActiveRows(d.active) + [row]))
  }

  predicate MustRotate(c: Config, d: Disk, row: Row) {
    d.active.Present? && Bytes(d.active.rows) + row.size > c.maxBytes
  }

  function PruneAll(c: Config, d: Disk): (r: Disk)
    requires c.Valid()
    ensures |r.rotated| <= c.maxSegments - 1
    decreases |d.rotated|
  {
    if |d.rotated| > c.maxSegments - 1 then PruneAll(c, Prune(d)) else d
  }

  /** A completed append. */
  function Appended(c: Config, d: Disk, row: Row, name: nat): Disk
    requires c.Valid()
  {
    WriteRow(PruneAll(c, if MustRotate(c, d, row) then Rotate(d, name) else d), row)
  }

  lemma {:induction false} PruneAllKeepsNewest(c: Config, d: Disk)
    requires c.Valid()
    ensures var r := PruneAll(c, d);
            && r.active == d.active
            && |r.rotated| == Min(|d.rotated|, c.maxSegments - 1)
            && r.rotated == d.rotated[|d.rotated| - |r.rotated|..]
    decreases |d.rotated|
  {
    if |d.rotated| > c.maxSegments - 1 {
      PruneAllKeepsNewest(c, Prune(d));
    }
  }

  /** An append rotates exactly when the row does not fit, and then keeps the newest segments there
      is room for, and no fewer. */
  lemma AppendedIs(c: Config, d: Disk, row: Row, name: nat)
    requires c.Valid() && row.size <= c.maxBytes
    requires forall i :: 0 <= i < |d.rotated| ==> d.rotated[i].name < name
    ensures var r, fits := Appended(c, d, row, name), Bytes(ActiveRows(d.active)) + row.size <= c.maxBytes;
            var all := if fits then d.rotated else d.rotated + [Segment(name, ActiveRows(d.active))];
            && r.active == Present(if fits then ActiveRows(d.active) + [row] else [row])
            && |r.rotated| == Min(|all|, c.maxSegments - 1)
            && r.rotated == all[|all| - |r.rotated|..]
  {
    hide PruneAll;
    PruneAllKeepsNewest(c, if MustRotate(c, d, row) then Rotate(d, name) else d);
    assert Bytes([]) == 0;
    hide Bytes;
  }

  lemma BytesOfOne(row: Row)
    ensures Bytes([row]) == row.size
  {
    assert [row][..0] == [];
  }

  // ---------------------------------------------------------------- invariant

  predicate NamesBelow(segments: seq<Segment>, name: nat) {
    forall i :: 0 <= i < |segments| ==> segments[i].name < name
  }

  predicate SegmentOk(c: Config, rows: seq<Row>) {
    rows != [] && Bytes(rows) <= c.maxBytes
  }

  ghost predicate DiskOk(c: Config, d: Disk) {
    && (forall i, j :: 0 <= i < j < |d.rotated| ==> d.rotated[i].name < d.rotated[j].name)
    && (forall i :: 0 <= i < |d.rotated| ==> SegmentOk(c, d.rotated[i].rows))
    && (d.active.Present? ==> Bytes(d.active.rows) <= c.maxBytes)
    && Files(d) <= c.maxSegments
    && Chained(c, Rows(d))
  }

  lemma RotateKeeps(c: Config, d: Disk, name: nat)
    requires DiskOk(c, d) && d.active.Present? && d.active.rows != [] && NamesBelow(d.rotated, name)
    ensures DiskOk(c, Rotate(d, name)) && Rows(Rotate(d, name)) == Rows(d)
  {
    hide Chained, Bytes;
    var s := Segment(name, d.active.rows);
    assert Rotate(d, name) == Disk(d.rotated + [s], Missing);
    hide InsertSorted;
    FlatConcat(d.rotated, [s]);
    FlatOne(s);
    hide Flat;
    assert Rows(Rotate(d, name)) == Rows(d);
  }

  lemma FirstSegmentInside(d: Disk)
    requires d.rotated != []
    ensures |d.rotated[0].rows| <= |Rows(d)|
  {
    assert d.rotated == [d.rotated[0]] + d.rotated[1..];
    FlatConcat([d.rotated[0]], d.rotated[1..]);
    FlatOne(d.rotated[0]);
  }

  lemma PruneKeeps(c: Config, d: Disk)
    requires c.Valid() && DiskOk(c, d) && |d.rotated| > c.maxSegments - 1
    ensures DiskOk(c, Prune(d)) && |d.rotated[0].rows| <= |Rows(d)|
    ensures Rows(Prune(d)) == Rows(d)[|d.rotated[0].rows|..] != []
    ensures Remembered(c, Rows(Prune(d))) == Remembered(c, Rows(d))
  {
    hide Chained, Bytes;
    FirstSegmentInside(d);
    var first, rest := d.rotated[0], d.rotated[1..];
    assert d.rotated == [first] + rest;
    FlatConcat([first], rest);
    FlatOne(first);
    var k := |first.rows|;
    assert Rows(d)[k..] == Rows(Prune(d));
    ChainedSuffix(c, Rows(d), k);
    assert SegmentOk(c, rest[|rest| - 1].rows);
    assert Flat(rest) == Flat(rest[..|rest| - 1]) + rest[|rest| - 1].rows;
    hide Flat;
  }

  lemma WriteKeeps(c: Config, d: Disk, row: Row)
    requires c.Valid() && DiskOk(c, d) && |d.rotated| <= c.maxSegments - 1
    requires row.size <= c.maxBytes && !MustRotate(c, d, row)
    requires row.complete && row.sequence == Remembered(c, Rows(d)).sequence + 1 && row.previous == Remembered(c, Rows(d)).digest
    ensures DiskOk(c, WriteRow(d, row)) && Rows(WriteRow(d, row)) == Rows(d) + [row]
    ensures Remembered(c, Rows(WriteRow(d, row))) == Memory(row.sequence, c.digest(row))
  {
    hide Bytes, Flat;
    var rows := Rows(d);
    assert Rows(WriteRow(d, row)) == rows + [row];
    assert SegmentOk(c, ActiveRows(d.active) + [row]) by {
      SegmentSnoc(c, d, row);
    }
    ChainedSnoc(c, rows, row);
  }

  lemma SegmentSnoc(c: Config, d: Disk, row: Row)
    requires d.active.Present? ==> Bytes(d.active.rows) <= c.maxBytes
    requires row.size <= c.maxBytes && !MustRotate(c, d, row)
    ensures SegmentOk(c, ActiveRows(d.active) + [row])
  {
    var next := ActiveRows(d.active) + [row];
    assert next[..|next| - 1] == ActiveRows(d.active);
  }

  lemma {:induction false} BytesBounded(c: Config, segments: seq<Segment>)
    requires forall i :: 0 <= i < |segments| ==> SegmentOk(c, segments[i].rows)
    ensures Bytes(Flat(segments)) <= |segments| * c.maxBytes
  {
    if segments != [] {
      var n := |segments| - 1;
      BytesBounded(c, segments[..n]);
      BytesConcat(Flat(segments[..n]), segments[n].rows);
      OneMore(n, c.maxBytes);
    }
  }

  lemma OneMore(n: nat, m: nat)
    ensures (n + 1) * m == n * m + m
  {
  }

  lemma {:induction false} BytesConcat(a: seq<Row>, b: seq<Row>)
    ensures Bytes(a + b) == Bytes(a) + Bytes(b)
    decreases |b|
  {
    if b == [] {
      assert a + b == a;
    } else {
      assert (a + b)[..|a + b| - 1] == a + b[..|b| - 1];
      BytesConcat(a, b[..|b| - 1]);
    }
  }

  // ------------------------------------------------------------------- recovery

  datatype Recovery = Recovered(memory: Memory) | Broken

  /** What a restarted sampler makes of a disk. */
  function Recover(c: Config, d: Disk): Recovery {
    if Files(d) <= c.maxSegments && Chained(c, Rows(d)) then Recovered(Remembered(c, Rows(d))) else Broken
  }

  /** Pruning has reached `now`, dropping that many rows and forgetting nothing it must remember. */
  ghost predicate PartlyPruned(c: Config, ready: Disk, now: Disk, dropped: nat) {
    && c.Valid() && DiskOk(c, now)
    && Remembered(c, Rows(now)) == Remembered(c, Rows(ready))
    && PruneAll(c, now) == PruneAll(c, ready)
    && dropped <= |Rows(ready)| && Rows(now) == Rows(ready)[dropped..]
    && (dropped == 0 || dropped < |Rows(ready)|)
  }

  lemma PruneStep(c: Config, ready: Disk, now: Disk, dropped: nat)
    requires PartlyPruned(c, ready, now, dropped) && |now.rotated| > c.maxSegments - 1
    ensures PartlyPruned(c, ready, Prune(now), dropped + |now.rotated[0].rows|)
  {
    PruneKeeps(c, now);
  }

  // -------------------------------------------------------------- the sampler

  class Sampler {
    const config: Config
    var rotated: seq<Segment>
    var active: Active
    var sequence: int
    var previousDigest: Hash

    /** A process starting on an existing directory. */
    constructor (config: Config, disk: Disk)
      ensures this.config == config && TheDisk() == disk && TheMemory() == GENESIS
    {
      this.config := config;
      rotated, active := disk.rotated, disk.active;
      sequence, previousDigest := GENESIS.sequence, GENESIS.digest;
    }

    function TheDisk(): Disk
      reads this
    {
      Disk(rotated, active)
    }

    function TheMemory(): Memory
      reads this
    {
      Memory(sequence, previousDigest)
    }

    ghost predicate Valid()
      reads this
    {
      config.Valid() && DiskOk(config, TheDisk()) && TheMemory() == Remembered(config, Rows(TheDisk()))
    }

    /** One append. Nothing happens to a sample over the segment bound; any other lands on a chain
        that is still whole, at the cost of the oldest segments alone. */
    method Append(row: Row, name: nat) returns (ok: bool)
      requires Valid() && NamesBelow(rotated, name)
      requires row.complete && row.sequence == sequence + 1 && row.previous == previousDigest
      modifies this
      ensures Valid()
      ensures ok <==> row.size <= config.maxBytes
      ensures !ok ==> TheDisk() == old(TheDisk()) && TheMemory() == old(TheMemory())
      ensures ok ==> TheDisk() == Appended(config, old(TheDisk()), row, name)
      ensures ok && Bytes(ActiveRows(old(active))) + row.size <= config.maxBytes ==>
                active == Present(ActiveRows(old(active)) + [row]) &&
                |rotated| == Min(|old(rotated)|, config.maxSegments - 1) &&
                rotated == old(rotated)[|old(rotated)| - |rotated|..]
      ensures ok && Bytes(ActiveRows(old(active))) + row.size > config.maxBytes ==>
                active == Present([row]) &&
                var all := old(rotated) + [Segment(name, ActiveRows(old(active)))];
                |rotated| == Min(|all|, config.maxSegments - 1) && rotated == all[|all| - |rotated|..]
      ensures ok ==> sequence == row.sequence && previousDigest == config.digest(row)
      ensures ok ==> exists k :: 0 <= k <= |old(Rows(TheDisk()))| && (k == 0 || k < |old(Rows(TheDisk()))|) &&
                       Rows(TheDisk()) == old(Rows(TheDisk()))[k..] + [row]
    {
      hide Flat, Chained, Bytes, DiskOk, PruneAll, Rotate, Rows, Remembered;
      if row.size > config.maxBytes {
        return false;
      }
      ghost var start := TheDisk();
      ghost var k := MakeRoom(row, name);
      ghost var roomy := TheDisk();
      WriteKeeps(config, roomy, row);
      active := Present(ActiveRows(active) + [row]);
      sequence, previousDigest := row.sequence, config.digest(row);
      assert TheDisk() == WriteRow(roomy, row) == Appended(config, start, row, name);
      assert Rows(TheDisk()) == Rows(start)[k..] + [row];
      hide Appended, WriteRow;
      AppendedIs(config, start, row, name);
      return true;
    }

    /** Rotation if the row does not fit, then pruning down to leave room for the active file. */
    method MakeRoom(row: Row, name: nat) returns (ghost dropped: nat)
      requires Valid() && NamesBelow(rotated, name) && row.size <= config.maxBytes
      modifies this`rotated, this`active
      ensures Valid() && TheMemory() == old(TheMemory())
      ensures TheDisk() ==
                PruneAll(config, if MustRotate(config, old(TheDisk()), row) then Rotate(old(TheDisk()), name) else old(TheDisk()))
      ensures !MustRotate(config, TheDisk(), row) && |rotated| <= config.maxSegments - 1
      ensures dropped <= |old(Rows(TheDisk()))| && (dropped == 0 || dropped < |old(Rows(TheDisk()))|)
      ensures Rows(TheDisk()) == old(Rows(TheDisk()))[dropped..]
    {
      hide Flat, Chained, Bytes, Remembered, InsertSorted, Files;
      ghost var start := TheDisk();
      if active.Present? && Bytes(active.rows) + row.size > config.maxBytes {
        RotatedHasRows(config, start, row);
        RotateKeeps(config, start, name);
        rotated := InsertSorted(rotated, Segment(name, active.rows));
        active := Missing;
      }
      ghost var ready := TheDisk();
      ghost var now := ready;
      dropped := 0;
      while |rotated| > config.maxSegments - 1
        invariant rotated == now.rotated && active == now.active == ready.active
        invariant sequence == old(sequence) && previousDigest == old(previousDigest)
        invariant PartlyPruned(config, ready, now, dropped)
        decreases |rotated|
      {
        PruneStep(config, ready, now, dropped);
        dropped := dropped + |now.rotated[0].rows|;
        rotated := rotated[1..];
        now := Prune(now);
      }
      assert Valid();
    }

    method SampleOnce(content: string, size: nat, name: nat) returns (ok: bool)
      requires Valid() && NamesBelow(rotated, name)
      modifies this
      ensures Valid()
      ensures ok <==> size <= config.maxBytes
      ensures ok ==> sequence == old(sequence) + 1 && Rows(TheDisk()) != [] &&
                     var last := Rows(TheDisk())[|Rows(TheDisk())| - 1];
                     last == Row(true, old(sequence) + 1, old(previousDigest), content, size)
    {
      ok := Append(Row(true, sequence + 1, previousDigest, content, size), name);
    }

    /** Reads every row of every segment in order; succeeds exactly on a whole chain within the
        segment bound, and then remembers exactly the last row. */
    method RecoverChain() returns (r: Recovery)
      modifies this`sequence, this`previousDigest
      ensures r.Recovered? <==>
                && |rotated| + (if active.Present? then 1 else 0) <= config.maxSegments
                && Chained(config, Flat(rotated) + ActiveRows(active))
      ensures r.Recovered? ==> r.memory == TheMemory()
      ensures var rows := Flat(rotated) + ActiveRows(active);
              r.Recovered? && rows != [] ==>
                sequence == rows[|rows| - 1].sequence && previousDigest == config.digest(rows[|rows| - 1])
      ensures TheMemory() == if r.Recovered? && Rows(TheDisk()) != [] then Remembered(config, Rows(TheDisk()))
                             else old(TheMemory())
      ensures old(TheMemory()) == GENESIS ==> r == Recover(config, TheDisk())
    {
      hide Flat, Chained, Bytes, DiskOk;
      var segments := if active.Present? then rotated + [Segment(0, active.rows)] else rotated;
      SegmentsAreRows(TheDisk(), segments);
      if |segments| > config.maxSegments {
        return Broken;
      }
      var ok, last := ReadSegments(config, segments);
      if !ok {
        return Broken;
      }
      if last.Present? {
        sequence, previousDigest := last.rows[0].sequence, config.digest(last.rows[0]);
      }
      return Recovered(Memory(sequence, previousDigest));
    }
  }

  lemma SegmentsAreRows(d: Disk, segments: seq<Segment>)
    requires segments == if d.active.Present? then d.rotated + [Segment(0, d.active.rows)] else d.rotated
    ensures Flat(segments) == Rows(d) && |segments| == Files(d)
  {
    if d.active.Present? {
      FlatConcat(d.rotated, [Segment(0, d.active.rows)]);
      FlatOne(Segment(0, d.active.rows));
    }
  }

  method ReadSegments(c: Config, segments: seq<Segment>) returns (ok: bool, last: Active)
    ensures ok <==> Chained(c, Flat(segments))
    ensures ok ==> IsLast(last, Flat(segments))
  {
    last := Missing;
    for i := 0 to |segments|
      invariant Chained(c, Flat(segments[..i])) && IsLast(last, Flat(segments[..i]))
    {
      assert segments[..i + 1][..i] == segments[..i];
      ok, last := ReadSegment(c, segments[i].rows, last, Flat(segments[..i]));
      if !ok {
        PrefixChained(c, segments, i + 1);
        return false, last;
      }
    }
    assert segments[..|segments|] == segments;
    return true, last;
  }

  /** The last row read so far, if any. */
  ghost predicate IsLast(last: Active, read: seq<Row>) {
    last == if read == [] then Missing else Present([read[|read| - 1]])
  }

  /** Reads one segment after `read`, of which only the last row is remembered. */
  method ReadSegment(c: Config, rows: seq<Row>, last: Active, ghost read: seq<Row>) returns (ok: bool, next: Active)
    requires Chained(c, read) && IsLast(last, read)
    ensures ok <==> Chained(c, read + rows)
    ensures ok ==> IsLast(next, read + rows)
  {
    hide Chained;
    next := last;
    assert read + rows[..0] == read;
    for j := 0 to |rows|
      invariant Chained(c, read + rows[..j]) && IsLast(next, read + rows[..j])
    {
      var row := rows[j];
      ghost var before := read + rows[..j];
      assert read + rows[..j + 1] == before + [row];
      ChainedSnoc(c, before, row);
      if !row.complete || row.sequence < 1 || (next.Present? && !Linked(c, next.rows[0], row)) {
        ChainedPrefix(c, read + rows, |read| + j + 1);
        assert (read + rows)[..|read| + j + 1] == before + [row];
        return false, next;
      }
      next := Present([row]);
    }
    assert rows[..|rows|] == rows;
    return true, next;
  }

  lemma ChainedSnoc(c: Config, rows: seq<Row>, row: Row)
    requires Chained(c, rows)
    ensures Chained(c, rows + [row]) <==>
              row.complete && row.sequence >= 1 && (rows != [] ==> Linked(c, rows[|rows| - 1], row))
  {
    var after := rows + [row];
    assert after[|rows|] == row;
    if row.complete && row.sequence >= 1 && (rows != [] ==> Linked(c, rows[|rows| - 1], row)) {
      forall i | 0 < i < |after| ensures Linked(c, after[i - 1], after[i]) {
        if i < |rows| { assert Linked(c, rows[i - 1], rows[i]); }
      }
    }
    if Chained(c, after) && rows != [] {
      assert Linked(c, after[|rows| - 1], after[|rows|]);
    }
  }

  lemma ChainedPrefix(c: Config, rows: seq<Row>, k: nat)
    requires k <= |rows|
    ensures Chained(c, rows) ==> Chained(c, rows[..k])
  {
    if Chained(c, rows) {
      forall i | 0 < i < k ensures Linked(c, rows[..k][i - 1], rows[..k][i]) {
        assert Linked(c, rows[i - 1], rows[i]);
      }
    }
  }

  lemma PrefixChained(c: Config, segments: seq<Segment>, k: nat)
    requires k <= |segments|
    ensures Chained(c, Flat(segments)) ==> Chained(c, Flat(segments[..k]))
  {
    assert segments == segments[..k] + segments[k..];
    FlatConcat(segments[..k], segments[k..]);
    ChainedPrefix(c, Flat(segments), |Flat(segments[..k])|);
    assert Flat(segments)[..|Flat(segments[..k])|] == Flat(segments[..k]);
  }

  // ---------------------------------------------------------------- every run

  datatype Stage =
    | Ready                    // between samples
    | Begun(row: Row)          // sample taken, nothing written
    | Roomy(row: Row)          // rotation done or not needed
    | Opened(row: Row)         // active file opened for appending, created if it was missing
    | Written(row: Row)        // row on disk, memory not yet updated
    | Down                     // process dead
    | Failed                   // recovery refused the directory

  /** `history` is every row ever written, which nothing but the theorems looks at. */
  datatype System = System(disk: Disk, memory: Memory, stage: Stage, history: seq<Row>)

  datatype Event =
    | Begin(content: string, size: nat)
    | RotateActive(name: nat)
    | KeepActive
    | PruneOldest
    | Open
    | Write
    | Remember
    | Crash
    | Restart

  predicate Enabled(c: Config, s: System, e: Event) {
    match e
    case Begin(_, size) => s.stage == Ready && size <= c.maxBytes
    case RotateActive(name) => s.stage.Begun? && MustRotate(c, s.disk, s.stage.row) && NamesBelow(s.disk.rotated, name)
    case KeepActive => s.stage.Begun? && !MustRotate(c, s.disk, s.stage.row)
    case PruneOldest => s.stage.Roomy? && |s.disk.rotated| > c.maxSegments - 1 && s.disk.rotated != []
    case Open => s.stage.Roomy? && |s.disk.rotated| <= c.maxSegments - 1
    case Write => s.stage.Opened?
    case Remember => s.stage.Written?
    case Crash => s.stage != Failed
    case Restart => s.stage == Down
  }

  function Step(c: Config, s: System, e: Event): System
    requires Enabled(c, s, e)
  {
    match e
    case Begin(content, size) =>
      s.(stage := Begun(Row(true, s.memory.sequence + 1, s.memory.digest, content, size)))
    case RotateActive(name) => s.(disk := Rotate(s.disk, name), stage := Roomy(s.stage.row))
    case KeepActive => s.(stage := Roomy(s.stage.row))
    case PruneOldest => s.(disk := Prune(s.disk))
    case Open => s.(disk := s.disk.(active := Present(ActiveRows(s.disk.active))), stage := Opened(s.stage.row))
    case Write =>
      s.(disk := WriteRow(s.disk, s.stage.row), stage := Written(s.stage.row), history := s.history + [s.stage.row])
    case Remember => s.(memory := Memory(s.stage.row.sequence, c.digest(s.stage.row)), stage := Ready)
    case Crash => s.(memory := GENESIS, stage := Down)
    case Restart =>
      match Recover(c, s.disk)
      case Recovered(m) => s.(memory := m, stage := Ready)
      case Broken => s.(stage := Failed)
  }

  /** A run from an empty directory. */
  ghost predicate IsRun(c: Config, events: seq<Event>, end: System)
    decreases |events|
  {
    if events == [] then end == System(Disk([], Missing), GENESIS, Ready, [])
    else
      var n := |events| - 1;
      exists mid :: IsRun(c, events[..n], mid) && Enabled(c, mid, events[n]) && end == Step(c, mid, events[n])
  }

  /** A row is sampled but not yet written. */
  predicate HasRow(stage: Stage) {
    stage.Begun? || stage.Roomy? || stage.Opened?
  }

  /** The retained rows are the newest ones of the history, at least one if there ever was one, and
      the history counts from one. */
  predicate IsNewest(rows: seq<Row>, history: seq<Row>) {
    && |rows| <= |history| && rows == history[|history| - |rows|..]
    && (history != [] ==> rows != [])
    && forall i :: 0 <= i < |history| ==> history[i].sequence == i + 1
  }

  ghost predicate Sound(c: Config, s: System) {
    && DiskOk(c, s.disk)
    && s.stage != Failed
    && IsNewest(Rows(s.disk), s.history)
    && (s.stage.Ready? || HasRow(s.stage) ==> s.memory == Remembered(c, Rows(s.disk)))
    && (HasRow(s.stage) ==>
          s.stage.row.complete && s.stage.row.size <= c.maxBytes &&
          s.stage.row.sequence == s.memory.sequence + 1 && s.stage.row.previous == s.memory.digest)
    && (s.stage.Roomy? || s.stage.Opened? ==> !MustRotate(c, s.disk, s.stage.row))
    && (s.stage.Opened? ==> s.disk.active.Present? && |s.disk.rotated| <= c.maxSegments - 1)
    && (s.stage.Written? ==> Memory(s.stage.row.sequence, c.digest(s.stage.row)) == Remembered(c, Rows(s.disk)))
  }

  lemma StepKeepsSound(c: Config, s: System, e: Event)
    requires c.Valid() && Sound(c, s) && Enabled(c, s, e)
    ensures Sound(c, Step(c, s, e))
  {
    hide Flat, Rows, Chained, Bytes, IsNewest;
    match e
    case RotateActive(name) =>
      RotatedHasRows(c, s.disk, s.stage.row);
      RotateKeeps(c, s.disk, name);
      assert !MustRotate(c, Rotate(s.disk, name), s.stage.row);
    case PruneOldest =>
      PruneKeeps(c, s.disk);
      NewestSuffix(Rows(s.disk), s.history, |s.disk.rotated[0].rows|);
    case Open => OpenKeeps(c, s.disk, s.stage.row);
    case Write =>
      WriteKeeps(c, s.disk, s.stage.row);
      NewestSnoc(c, Rows(s.disk), s.history, s.stage.row);
    case _ =>
  }

  lemma RotatedHasRows(c: Config, d: Disk, row: Row)
    requires MustRotate(c, d, row) && row.size <= c.maxBytes
    ensures d.active.rows != []
  {
  }

  lemma OpenKeeps(c: Config, d: Disk, row: Row)
    requires DiskOk(c, d) && |d.rotated| <= c.maxSegments - 1
    requires row.size <= c.maxBytes && !MustRotate(c, d, row)
    ensures var ready := d.(active := Present(ActiveRows(d.active)));
            DiskOk(c, ready) && Rows(ready) == Rows(d) && !MustRotate(c, ready, row)
  {
    hide Chained;
  }

  lemma NewestSuffix(rows: seq<Row>, history: seq<Row>, k: nat)
    requires IsNewest(rows, history) && k <= |rows| && (history != [] ==> rows[k..] != [])
    ensures IsNewest(rows[k..], history)
  {
  }

  lemma NewestSnoc(c: Config, rows: seq<Row>, history: seq<Row>, row: Row)
    requires IsNewest(rows, history) && row.sequence == Remembered(c, rows).sequence + 1
    ensures row.sequence == |history| + 1 && IsNewest(rows + [row], history + [row])
  {
    if rows != [] {
      assert rows[|rows| - 1] == history[|history| - 1];
    }
    assert (history + [row])[|history| - |rows|..] == history[|history| - |rows|..] + [row];
  }

  lemma StartIsSound(c: Config)
    requires c.Valid()
    ensures Sound(c, System(Disk([], Missing), GENESIS, Ready, []))
  {
  }

  lemma {:induction false} EveryRunIsSound(c: Config, events: seq<Event>, end: System)
    requires c.Valid() && IsRun(c, events, end)
    ensures Sound(c, end)
    decreases |events|
  {
    StartIsSound(c);
    hide Sound, Enabled, Step;
    if events != [] {
      var n := |events| - 1;
      var mid :| IsRun(c, events[..n], mid) && Enabled(c, mid, events[n]) && end == Step(c, mid, events[n]);
      EveryRunIsSound(c, events[..n], mid);
      StepKeepsSound(c, mid, events[n]);
    }
  }

  /** The rows a run has written so far. */
  function Writes(events: seq<Event>): (n: nat)
  {
    if events == [] then 0
    else Writes(events[..|events| - 1]) + (if events[|events| - 1].Write? then 1 else 0)
  }

  lemma {:induction false} HistoryCounts(c: Config, events: seq<Event>, end: System)
    requires IsRun(c, events, end)
    ensures |end.history| == Writes(events)
    decreases |events|
  {
    if events != [] {
      var n := |events| - 1;
      var mid :| IsRun(c, events[..n], mid) && Enabled(c, mid, events[n]) && end == Step(c, mid, events[n]);
      HistoryCounts(c, events[..n], mid);
    }
  }

  /** The last row ever written, by its sequence number and digest. */
  function Latest(c: Config, history: seq<Row>): Memory {
    if history == [] then GENESIS else Memory(|history|, c.digest(history[|history| - 1]))
  }

  /** At every moment of every run, crashes between filesystem steps included, the retained rows
      form one whole chain within the file and byte bounds. They are the newest rows ever written,
      and recovery would succeed and restore the very last one, whose number is the count of writes. */
  lemma ChainSurvivesEveryRun(c: Config, events: seq<Event>, end: System)
    requires c.Valid() && IsRun(c, events, end)
    ensures IsNewest(Rows(end.disk), end.history) && |end.history| == Writes(events)
    ensures Recover(c, end.disk) == Recovered(Latest(c, end.history))
    ensures Chained(c, Rows(end.disk))
    ensures Files(end.disk) <= c.maxSegments && Bytes(Rows(end.disk)) <= c.maxSegments * c.maxBytes
    ensures end.stage != Failed
    ensures end.stage == Ready ==> end.memory == Latest(c, end.history)
  {
    EveryRunIsSound(c, events, end);
    HistoryCounts(c, events, end);
    assert Remembered(c, Rows(end.disk)) == Latest(c, end.history);
    DiskBytes(c, end.disk);
  }

  lemma DiskBytes(c: Config, d: Disk)
    requires DiskOk(c, d)
    ensures Bytes(Rows(d)) <= c.maxSegments * c.maxBytes
  {
    var active := ActiveRows(d.active);
    BytesBounded(c, d.rotated);
    BytesConcat(Flat(d.rotated), active);
    OneMore(|d.rotated|, c.maxBytes);
    assert Bytes(active) <= (if d.active.Present? then c.maxBytes else 0);
    MulMono(Files(d), c.maxSegments, c.maxBytes);
  }

  /** Nothing written is ever lost except from the old end, and never the newest row. */
  lemma StepOnlyDropsOldest(c: Config, s: System, e: Event)
    requires c.Valid() && Sound(c, s) && Enabled(c, s, e)
    ensures exists k, added :: 0 <= k <= |Rows(s.disk)| && (k == 0 || k < |Rows(s.disk)|) && |added| <= 1 &&
              Rows(Step(c, s, e).disk) == Rows(s.disk)[k..] + added
  {
    var rows, after := Rows(s.disk), Rows(Step(c, s, e).disk);
    match e
    case RotateActive(name) =>
      RotateKeeps(c, s.disk, name);
      assert after == rows[0..] + [];
    case PruneOldest =>
      PruneKeeps(c, s.disk);
      FirstSegmentInside(s.disk);
      assert after == rows[|s.disk.rotated[0].rows|..] + [];
    case Write =>
      WriteKeeps(c, s.disk, s.stage.row);
      assert after == rows[0..] + [s.stage.row];
    case _ =>
      assert after == rows[0..] + [];
  }

  /** Where the steps of a sample lead when none of them is a crash. */
  function Outcome(c: Config, s: System): Disk
    requires c.Valid() && (s.stage.Roomy? || s.stage.Opened? || s.stage.Written?)
  {
    match s.stage
    case Roomy(row) => WriteRow(PruneAll(c, s.disk), row)
    case Opened(row) => WriteRow(s.disk, row)
    case Written(_) => s.disk
  }

  /** Uninterrupted, the steps of a sample leave what the sequential append leaves. */
  lemma StepsAreTheAppend(c: Config, s: System, e: Event)
    requires c.Valid() && Enabled(c, s, e)
    ensures e.KeepActive? ==> forall name :: Outcome(c, Step(c, s, e)) == Appended(c, s.disk, s.stage.row, name)
    ensures e.RotateActive? ==> Outcome(c, Step(c, s, e)) == Appended(c, s.disk, s.stage.row, e.name)
    ensures e.PruneOldest? || e.Open? || e.Write? ==> Outcome(c, Step(c, s, e)) == Outcome(c, s)
    ensures e.Remember? ==> Step(c, s, e).disk == Outcome(c, s)
  {
  }

  lemma RunSnoc(c: Config, events: seq<Event>, s: System, e: Event)
    requires IsRun(c, events, s) && Enabled(c, s, e)
    ensures IsRun(c, events + [e], Step(c, s, e))
  {
    hide Step, Enabled;
    var longer := events + [e];
    assert longer[..|longer| - 1] == events;
  }

  /** ... and nothing stands in their way: from every moment between samples, each sample within the
      segment bound has a run that leaves what the append leaves, and remembers its row. */
  lemma SampleCompletes(c: Config, events: seq<Event>, s: System, content: string, size: nat, name: nat)
    returns (after: seq<Event>, end: System)
    requires c.Valid() && IsRun(c, events, s) && s.stage == Ready && size <= c.maxBytes
    requires forall i :: 0 <= i < |s.disk.rotated| ==> s.disk.rotated[i].name < name
    ensures var row := Row(true, s.memory.sequence + 1, s.memory.digest, content, size);
            && IsRun(c, after, end) && events <= after && end.stage == Ready
            && end.disk == Appended(c, s.disk, row, name) && end.memory == Memory(row.sequence, c.digest(row))
  {
    hide IsRun, PruneAll;
    var row := Row(true, s.memory.sequence + 1, s.memory.digest, content, size);
    var begun := Step(c, s, Begin(content, size));
    RunSnoc(c, events, s, Begin(content, size));
    var first := if MustRotate(c, s.disk, row) then RotateActive(name) else KeepActive;
    var roomy := Step(c, begun, first);
    after := events + [Begin(content, size)];
    RunSnoc(c, after, begun, first);
    after, end := RunFinishes(c, after + [first], roomy);
  }

  lemma {:induction false} RunFinishes(c: Config, events: seq<Event>, s: System) returns (after: seq<Event>, end: System)
    requires c.Valid() && IsRun(c, events, s) && s.stage.Roomy?
    ensures IsRun(c, after, end) && events <= after && end.stage == Ready
    ensures end.disk == Outcome(c, s) && end.memory == Memory(s.stage.row.sequence, c.digest(s.stage.row))
    decreases |s.disk.rotated|
  {
    hide IsRun;
    if |s.disk.rotated| > c.maxSegments - 1 {
      RunSnoc(c, events, s, PruneOldest);
      after, end := RunFinishes(c, events + [PruneOldest], Step(c, s, PruneOldest));
    } else {
      var ready := Step(c, s, Open);
      RunSnoc(c, events, s, Open);
      var written := Step(c, ready, Write);
      RunSnoc(c, events + [Open], ready, Write);
      RunSnoc(c, events + [Open] + [Write], written, Remember);
      after, end := events + [Open] + [Write] + [Remember], Step(c, written, Remember);
    }
  }

  // ------------------------------------------------ why names must increase

  lemma {:induction false} InsertedBefore(segments: seq<Segment>, s: Segment) returns (k: nat)
    requires forall i :: 0 <= i < |segments| ==> segments[i].name != s.name
    ensures k <= |segments| && InsertSorted(segments, s) == segments[..k] + [s] + segments[k..]
    ensures k == |segments| <==> segments == [] || segments[|segments| - 1].name < s.name
  {
    if segments == [] || segments[|segments| - 1].name < s.name {
      k := |segments|;
    } else {
      var n := |segments| - 1;
      k := InsertedBefore(segments[..n], s);
      assert segments[..n][..k] == segments[..k];
      assert segments[k..] == segments[..n][k..] + [segments[n]];
    }
  }

  lemma LastNameDecides(c: Config, d: Disk, name: nat)
    requires DiskOk(c, d)
    ensures NamesBelow(d.rotated, name) <==> d.rotated == [] || d.rotated[|d.rotated| - 1].name < name
  {
  }

  /** The assumption on names is exact: a rotation of rows to an unused name keeps the chain readable
      if and only if that name sorts after every retained one. */
  lemma RotationNeedsLaterName(c: Config, d: Disk, name: nat)
    requires DiskOk(c, d) && d.active.Present?
    requires forall i :: 0 <= i < |d.rotated| ==> d.rotated[i].name != name
    ensures Chained(c, Rows(Rotate(d, name))) <==> NamesBelow(d.rotated, name) || d.active.rows == []
  {
    var s, n := Segment(name, d.active.rows), |d.rotated|;
    var k := InsertedBefore(d.rotated, s);
    if d.active.rows == [] {
      EmptySegmentAnywhere(d.rotated, s, k);
    } else if NamesBelow(d.rotated, name) {
      RotateKeeps(c, d, name);
    } else {
      LastNameDecides(c, d, name);
      assert k < n;
      MisplacedSegment(c, d, s, k);
      assert Rows(Rotate(d, name)) == Flat(InsertSorted(d.rotated, s));
    }
  }

  lemma EmptySegmentAnywhere(segments: seq<Segment>, s: Segment, k: nat)
    requires k <= |segments| && s.rows == []
    ensures Flat(segments[..k] + [s] + segments[k..]) == Flat(segments)
  {
    hide Flat;
    var a, b := segments[..k], segments[k..];
    assert segments == a + b;
    FlatConcat(a + [s], b);
    FlatConcat(a, [s]);
    FlatOne(s);
    FlatConcat(a, b);
    assert Flat(a) + [] == Flat(a);
  }

  lemma MisplacedSegment(c: Config, d: Disk, s: Segment, k: nat)
    requires DiskOk(c, d) && d.active.Present? && s.rows == d.active.rows != [] && k < |d.rotated|
    ensures !Chained(c, Flat(d.rotated[..k] + [s] + d.rotated[k..]))
  {
    var a, b := Flat(d.rotated[..k]), Flat(d.rotated[k..]);
    assert d.rotated == d.rotated[..k] + d.rotated[k..];
    FlatConcat(d.rotated[..k], d.rotated[k..]);
    FlatConcat(d.rotated[..k] + [s], d.rotated[k..]);
    FlatConcat(d.rotated[..k], [s]);
    FlatOne(s);
    FirstSegmentInside(Disk(d.rotated[k..], Missing));
    assert SegmentOk(c, d.rotated[k].rows);
    var good, bad := a + b + s.rows, (a + s.rows) + b;
    assert Rows(d) == good;
    var p, q, r := |a|, |a| + |b|, |a| + |s.rows|;
    assert good[p] == b[0] && good[q] == s.rows[0];
    assert bad[p] == s.rows[0] && bad[r] == b[0];
    SequenceIncreases(c, good, p, q);
    if Chained(c, bad) {
      SequenceIncreases(c, bad, p, r);
      assert false;
    }
  }
}
