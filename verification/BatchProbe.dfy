/** The batched-graph probes of stage 3 (crates/diar-core/src/provision/verify.rs): flat row-major
    buffers holding one probe mask among filler masks, one inference, one row compared.

    Values are reals, and a graph is a function of its two flat inputs that may fail. */
module BatchProbe {
  import opened Wrappers
  import SeededMask
  import Xorshift

  const EMBED_DIM: nat := 256
  const PROBE_ROW: nat := 5
  const TOL: real := 0.0001

  type Row = seq<real>

  /** Fbank or waveform rows, and mask rows, to output rows. */
  type Graph = (seq<real>, seq<real>) -> Option<seq<real>>

  // ---------------------------------------------------------------- row-major buffers

  function Concat(rows: seq<Row>): seq<real> {
    if rows == [] then [] else Concat(rows[..|rows| - 1]) + rows[|rows| - 1]
  }

  function Offset(r: nat, width: nat): nat {
    r * width
  }

  /** Row `r` of a row-major buffer. */
  function RowOf(flat: seq<real>, width: nat, r: nat): Row
    requires Offset(r, width) + width <= |flat|
  {
    flat[Offset(r, width)..Offset(r, width) + width]
  }

  lemma OffsetStep(r: nat, width: nat)
    ensures Offset(r + 1, width) == Offset(r, width) + width
  {
  }

  lemma RowFits(r: nat, n: nat, width: nat)
    requires r < n
    ensures Offset(r, width) + width <= Offset(n, width)
  {
    assert (n - r - 1) * width >= 0;
  }

  lemma {:induction false} ConcatLength(rows: seq<Row>, width: nat)
    requires forall row <- rows :: |row| == width
    ensures |Concat(rows)| == Offset(|rows|, width)
  {
    if rows != [] {
      var rest := rows[..|rows| - 1];
      assert rows[|rows| - 1] in rows && forall row <- rest :: row in rows;
      ConcatLength(rest, width);
      OffsetStep(|rest|, width);
    }
  }

  lemma SliceOfPrefix(a: seq<real>, b: seq<real>, from: nat, to: nat)
    requires from <= to <= |a|
    ensures (a + b)[from..to] == a[from..to]
  {
  }

  lemma SliceOfSuffix(a: seq<real>, b: seq<real>)
    ensures (a + b)[|a|..|a| + |b|] == b
  {
  }

  /** Laying rows end to end puts each at its row-major offset. */
  lemma {:induction false} RowMajor(rows: seq<Row>, width: nat, r: nat)
    requires r < |rows| && forall row <- rows :: |row| == width
    ensures Offset(r, width) + width <= |Concat(rows)|
    ensures RowOf(Concat(rows), width, r) == rows[r]
  {
    var rest, last := rows[..|rows| - 1], rows[|rows| - 1];
    assert last in rows && forall row <- rest :: row in rows;
    ConcatLength(rest, width);
    if r < |rest| {
      RowMajor(rest, width, r);
      SliceOfPrefix(Concat(rest), last, Offset(r, width), Offset(r, width) + width);
    } else {
      SliceOfSuffix(Concat(rest), last);
    }
  }

  // ---------------------------------------------------------------- the buffers

  function Copies(x: Row, n: nat): seq<Row> {
    seq(n, i => x)
  }

  method BuildCopies(x: Row, n: nat) returns (flat: seq<real>)
    ensures flat == Concat(Copies(x, n))
  {
    flat := [];
    for i := 0 to n
      invariant flat == Concat(Copies(x, i))
    {
      assert Copies(x, i + 1)[..i] == Copies(x, i);
      flat := flat + x;
    }
  }

  function FillerSeed(base: nat, k: nat): Xorshift.Seed {
    (base + k) % Xorshift.MODULUS
  }

  /** The seeded filler rows, as SeededMask.SeededMask computes them. */
  function Seeded(base: nat, frames: nat): nat -> Row {
    (k: nat) => SeededMask.Row(FillerSeed(base, k), frames)
  }

  /** The mask in slot `k`: the probe mask in the probe slot, a filler elsewhere. */
  function MaskAt(k: nat, slot: nat, mask: Row, filler: nat -> Row): Row {
    if k == slot then mask else filler(k)
  }

  function Masks(n: nat, slot: nat, mask: Row, filler: nat -> Row): (rows: seq<Row>)
    ensures |rows| == n
  {
    seq(n, k requires 0 <= k < n => MaskAt(k, slot, mask, filler))
  }

  lemma MasksSnoc(n: nat, slot: nat, mask: Row, filler: nat -> Row)
    ensures Concat(Masks(n + 1, slot, mask, filler)) == Concat(Masks(n, slot, mask, filler)) + MaskAt(n, slot, mask, filler)
  {
    var rows := Masks(n + 1, slot, mask, filler);
    assert rows[..n] == Masks(n, slot, mask, filler);
  }

  /** The probe's slot is the first of its own row and lies in no other row. */
  lemma SlotOfRow(i: nat, groups: nat, probe: nat)
    ensures i != probe ==> !(Offset(i, groups) <= Offset(probe, groups) < Offset(i, groups) + groups)
  {
    if i < probe {
      RowFits(i, probe, groups);
    } else if i > probe {
      RowFits(probe, i, groups);
    }
  }

  /** The masks of row `i`, whose first slot is `first`. */
  method BuildGroup(flat: seq<real>, i: nat, groups: nat, probe: nat, mask: Row, filler: nat -> Row,
                    first: nat, ghost slot: nat)
    returns (more: seq<real>)
    requires if i == probe then first == slot else !(first <= slot < first + groups)
    requires flat == Concat(Masks(first, slot, mask, filler))
    ensures more == Concat(Masks(first + groups, slot, mask, filler))
  {
    more := flat;
    for s := 0 to groups
      invariant more == Concat(Masks(first + s, slot, mask, filler))
    {
      MasksSnoc(first + s, slot, mask, filler);
      if i == probe && s == 0 {
        more := more + mask;
      } else {
        more := more + filler(first + s);
      }
    }
  }

  method BuildMasks(batch: nat, groups: nat, probe: nat, mask: Row, filler: nat -> Row) returns (flat: seq<real>)
    ensures flat == Concat(Masks(Offset(batch, groups), Offset(probe, groups), mask, filler))
  {
    flat := [];
    for i := 0 to batch
      invariant flat == Concat(Masks(Offset(i, groups), Offset(probe, groups), mask, filler))
    {
      OffsetStep(i, groups);
      SlotOfRow(i, groups, probe);
      flat := BuildGroup(flat, i, groups, probe, mask, filler, i * groups, Offset(probe, groups));
    }
  }

  // ---------------------------------------------------------------- the comparison

  function Abs(x: real): real {
    if x < 0.0 then -x else x
  }

  /** `zip` stops at the shorter of the two. */
  function MaxAbsDiff(a: seq<real>, b: seq<real>): real {
    if a == [] || b == [] then 0.0
    else
      var (d, rest) := (Abs(a[0] - b[0]), MaxAbsDiff(a[1..], b[1..]));
      if d >= rest then d else rest
  }

  predicate Close(a: seq<real>, b: seq<real>) {
    |a| == |b| && forall k :: 0 <= k < |a| ==> Abs(a[k] - b[k]) <= TOL
  }

  lemma {:induction false} MaxAbsDiffExactlyWhen(a: seq<real>, b: seq<real>, bar: real)
    requires bar >= 0.0 && |a| == |b|
    ensures MaxAbsDiff(a, b) <= bar <==> forall k :: 0 <= k < |a| ==> Abs(a[k] - b[k]) <= bar
  {
    if a != [] {
      MaxAbsDiffExactlyWhen(a[1..], b[1..], bar);
      assert forall k :: 0 < k < |a| ==> a[k] == a[1..][k - 1] && b[k] == b[1..][k - 1];
    }
  }

  method Compare(a: seq<real>, b: seq<real>) returns (worst: real)
    ensures worst == MaxAbsDiff(a, b)
  {
    worst := 0.0;
    var n := if |a| <= |b| then |a| else |b|;
    for i := n downto 0
      invariant worst == MaxAbsDiff(a[i..n], b[i..n])
    {
      assert a[i..n][1..] == a[i + 1..n] && b[i..n][1..] == b[i + 1..n];
      var d := Abs(a[i] - b[i]);
      if d >= worst {
        worst := d;
      }
    }
    PastTheShorter(a, b, n);
  }

  lemma {:induction false} PastTheShorter(a: seq<real>, b: seq<real>, n: nat)
    requires n == if |a| <= |b| then |a| else |b|
    ensures MaxAbsDiff(a[0..n], b[0..n]) == MaxAbsDiff(a, b)
  {
    if n > 0 {
      PastTheShorter(a[1..], b[1..], n - 1);
      assert a[0..n][1..] == a[1..][0..n - 1] && b[0..n][1..] == b[1..][0..n - 1];
    }
  }

  // ---------------------------------------------------------------- the probe

  /** The declared output shape: one embedding a slot. */
  ghost predicate HasShape(graph: Graph, slots: nat) {
    forall x, masks :: graph(x, masks).Some? ==> |graph(x, masks).value| == Offset(slots, EMBED_DIM)
  }

  /** The verdict of a probe whose inference gave `out`. */
  predicate Passes(out: Option<seq<real>>, slot: nat, reference: seq<real>) {
    && out.Some?
    && Offset(slot, EMBED_DIM) + EMBED_DIM <= |out.value|
    && MaxAbsDiff(RowOf(out.value, EMBED_DIM, slot), reference) <= TOL
  }

  /** What the graph answers on the probe's two buffers. */
  function Answer(graph: Graph, x: Row, mask: Row, batch: nat, groups: nat, probe: nat, filler: nat -> Row): Option<seq<real>> {
    graph(Concat(Copies(x, batch)), Concat(Masks(Offset(batch, groups), Offset(probe, groups), mask, filler)))
  }

  lemma SlotInRange(batch: nat, groups: nat, probe: nat)
    requires probe < batch && groups > 0
    ensures Offset(probe, groups) < Offset(batch, groups)
  {
    RowFits(probe, batch, groups);
  }

  /** Stages 3e, 3g and 3h: build the batch, run it, compare one row with a batch-1 answer. */
  method Probe(graph: Graph, x: Row, mask: Row, batch: nat, groups: nat, probe: nat, base: nat, reference: seq<real>)
    returns (ok: bool)
    requires probe < batch && groups > 0 && HasShape(graph, Offset(batch, groups))
    ensures ok == Passes(Answer(graph, x, mask, batch, groups, probe, Seeded(base, |mask|)), Offset(probe, groups), reference)
  {
    SlotInRange(batch, groups, probe);
    RowFits(Offset(probe, groups), Offset(batch, groups), EMBED_DIM);
    var xs := BuildCopies(x, batch);
    var masks := BuildMasks(batch, groups, probe, mask, Seeded(base, |mask|));
    var out := graph(xs, masks);
    if out.None? {
      return false;
    }
    var at := probe * groups * EMBED_DIM;
    assert at == Offset(Offset(probe, groups), EMBED_DIM);
    var worst := Compare(out.value[at..at + EMBED_DIM], reference);
    ok := worst <= TOL;
  }

  // ---------------------------------------------------------------- graphs made of a batch-1 tail

  /** A batch-1 function: one input row and one mask to one embedding. */
  type Tail = (Row, Row) -> Row

  /** In every batch, output slot `k` is `tail` of the input row of `k` and of the mask in slot
      `perm(k)`. With the identity this is the per-row lift of `tail`; any other `perm` is a graph
      that couples the rows of a batch. */
  ghost predicate Lifts(graph: Graph, tail: Tail, batch: nat, groups: nat, perm: nat -> nat, width: nat, frames: nat) {
    forall xs: seq<Row>, masks: seq<Row> ::
      |xs| == batch && |masks| == Offset(batch, groups)
      && (forall x <- xs :: |x| == width) && (forall m <- masks :: |m| == frames)
      ==> LiftsOn(graph(Concat(xs), Concat(masks)), tail, batch, groups, perm, xs, masks)
  }

  ghost predicate LiftsOn(out: Option<seq<real>>, tail: Tail, batch: nat, groups: nat, perm: nat -> nat,
                          xs: seq<Row>, masks: seq<Row>)
    requires |xs| == batch && |masks| == Offset(batch, groups)
  {
    && out.Some?
    && |out.value| == Offset(Offset(batch, groups), EMBED_DIM)
    && forall i, s :: 0 <= i < batch && 0 <= s < groups ==>
         SlotIs(out.value, tail, i, s, groups, perm, xs, masks)
  }

  ghost predicate SlotIs(out: seq<real>, tail: Tail, i: nat, s: nat, groups: nat, perm: nat -> nat,
                         xs: seq<Row>, masks: seq<Row>)
    requires i < |xs|
  {
    var k := Offset(i, groups) + s;
    && perm(k) < |masks|
    && Offset(k, EMBED_DIM) + EMBED_DIM <= |out|
    && RowOf(out, EMBED_DIM, k) == tail(xs[i], masks[perm(k)])
  }

  lemma PassesExactlyWhen(out: Option<seq<real>>, slots: nat, slot: nat, reference: seq<real>)
    requires slot < slots && out.Some? && |out.value| == Offset(slots, EMBED_DIM) && |reference| == EMBED_DIM
    ensures Offset(slot, EMBED_DIM) + EMBED_DIM <= |out.value|
    ensures Passes(out, slot, reference) <==> Close(RowOf(out.value, EMBED_DIM, slot), reference)
  {
    RowFits(slot, slots, EMBED_DIM);
    MaxAbsDiffExactlyWhen(RowOf(out.value, EMBED_DIM, slot), reference, TOL);
  }

  /** MAIN RESULT. Whatever the batch size, the row widths, the probe row and the fillers: a graph
      made of a batch-1 function passes exactly when that function, asked the mask in the slot the
      graph takes for the probe's, agrees with the reference to the bar in every component. */
  lemma ProbeExactlyWhen(graph: Graph, tail: Tail, batch: nat, groups: nat, perm: nat -> nat, probe: nat,
                         x: Row, mask: Row, filler: nat -> Row, reference: seq<real>)
    requires probe < batch && groups > 0 && |reference| == EMBED_DIM
    requires forall k :: |filler(k)| == |mask|
    requires Lifts(graph, tail, batch, groups, perm, |x|, |mask|)
    ensures var slot := Offset(probe, groups);
            Passes(Answer(graph, x, mask, batch, groups, probe, filler), slot, reference)
            <==> Close(tail(x, MaskAt(perm(slot), slot, mask, filler)), reference)
  {
    var slot, slots := Offset(probe, groups), Offset(batch, groups);
    var xs, masks := Copies(x, batch), Masks(slots, slot, mask, filler);
    var out := Answer(graph, x, mask, batch, groups, probe, filler);
    SlotInRange(batch, groups, probe);
    assert LiftsOn(out, tail, batch, groups, perm, xs, masks);
    assert SlotIs(out.value, tail, probe, 0, groups, perm, xs, masks);
    PassesExactlyWhen(out, slots, slot, reference);
  }

  /** A probe passes exactly when there is an answer, long enough, whose slice at the slot is within
      10^-4 of the reference in every component they share. */
  lemma PassesWithin(out: Option<seq<real>>, slot: nat, reference: seq<real>)
    ensures Passes(out, slot, reference) <==>
            && out.Some? && slot * 256 + 256 <= |out.value|
            && forall k :: 0 <= k < 256 && k < |reference| ==> -0.0001 <= out.value[slot * 256 + k] - reference[k] <= 0.0001
  {
    if out.Some? && slot * 256 + 256 <= |out.value| {
      assert Offset(slot, EMBED_DIM) == slot * 256;
      var row := RowOf(out.value, EMBED_DIM, slot);
      var n := if |row| <= |reference| then |row| else |reference|;
      PastTheShorter(row, reference, n);
      MaxAbsDiffExactlyWhen(row[0..n], reference[0..n], TOL);
      assert forall k :: 0 <= k < n ==> row[0..n][k] == out.value[slot * 256 + k] && reference[0..n][k] == reference[k];
    }
  }

  // ---------------------------------------------------------------- what the fillers are for

  lemma SmallFillerSeed(base: nat, k: nat)
    requires base + k < 0x1_0000_0000
    ensures FillerSeed(base, k) == base + k
  {
  }

  lemma FillersDiffer(base: nat, frames: nat, i: nat, j: nat)
    requires frames >= 4 && i != j && base + i < 0x1_0000_0000 && base + j < 0x1_0000_0000
    ensures Seeded(base, frames)(i) != Seeded(base, frames)(j)
  {
    SmallFillerSeed(base, i);
    SmallFillerSeed(base, j);
    SeededMask.SmallSeedsGiveDistinctRows(FillerSeed(base, i), FillerSeed(base, j), frames,
                                          Seeded(base, frames)(i), Seeded(base, frames)(j));
  }

  lemma MaskIsNoFiller(seed: nat, base: nat, frames: nat, i: nat)
    requires frames >= 4 && base + i < 0x1_0000_0000 && seed < base
    ensures Seeded(base, frames)(i) != SeededMask.Row(seed, frames)
  {
    SmallFillerSeed(base, i);
    SeededMask.SmallSeedsGiveDistinctRows(FillerSeed(base, i), seed, frames,
                                          Seeded(base, frames)(i), SeededMask.Row(seed, frames));
  }

  /** The masks of a batch are pairwise distinct, as the seed mix is meant to make them. */
  lemma MasksAreDistinct(i: nat, j: nat, slot: nat, seed: nat, base: nat, frames: nat)
    requires frames >= 4 && i != j && base + i < 0x1_0000_0000 && base + j < 0x1_0000_0000 && seed < base
    ensures MaskAt(i, slot, SeededMask.Row(seed, frames), Seeded(base, frames))
         != MaskAt(j, slot, SeededMask.Row(seed, frames), Seeded(base, frames))
  {
    if i == slot {
      MaskIsNoFiller(seed, base, frames, j);
    } else if j == slot {
      MaskIsNoFiller(seed, base, frames, i);
    } else {
      FillersDiffer(base, frames, i, j);
    }
  }

  /** So a graph that answers the probe with the mask of another slot is asked about a different
      mask, and passes only if the answer to that one meets the reference. */
  lemma CoupledRowsAreAskedAnotherMask(graph: Graph, tail: Tail, batch: nat, groups: nat, perm: nat -> nat, probe: nat,
                                       x: Row, seed: nat, base: nat, frames: nat, other: nat, reference: seq<real>)
    requires probe < batch && groups > 0 && frames >= 4 && |reference| == EMBED_DIM
    requires Lifts(graph, tail, batch, groups, perm, |x|, frames)
    requires other == perm(Offset(probe, groups)) && other != Offset(probe, groups)
    requires seed < base && base + other < 0x1_0000_0000
    ensures var mask, filler := SeededMask.Row(seed, frames), Seeded(base, frames);
            && filler(other) != mask
            && (Passes(Answer(graph, x, mask, batch, groups, probe, filler), Offset(probe, groups), reference)
                <==> Close(tail(x, filler(other)), reference))
  {
    SeededLength(base, frames);
    MaskIsNoFiller(seed, base, frames, other);
    ProbeExactlyWhen(graph, tail, batch, groups, perm, probe, x, SeededMask.Row(seed, frames), Seeded(base, frames), reference);
  }

  lemma SeededLength(base: nat, frames: nat)
    ensures forall k :: |Seeded(base, frames)(k)| == frames
  {
    forall k: nat
      ensures |Seeded(base, frames)(k)| == frames
    {
      assert |SeededMask.Row(FillerSeed(base, k), frames)| == frames;
    }
  }

  /** Row `r` replaced by anything of its length. */
  function Overwrite(out: seq<real>, r: nat, row: Row): seq<real>
    requires Offset(r, EMBED_DIM) + EMBED_DIM <= |out| && |row| == EMBED_DIM
  {
    out[..Offset(r, EMBED_DIM)] + row + out[Offset(r, EMBED_DIM) + EMBED_DIM..]
  }

  lemma SplicedSlice(out: seq<real>, row: Row, at: nat, from: nat)
    requires at + |row| <= |out| && from + |row| <= |out| && (from + |row| <= at || at + |row| <= from)
    ensures (out[..at] + row + out[at + |row|..])[from..from + |row|] == out[from..from + |row|]
  {
  }

  /** Only the probed row is looked at: whatever a graph puts in any other row, the verdict is the
      same. */
  lemma OtherRowsAreNotLookedAt(out: seq<real>, slots: nat, slot: nat, r: nat, row: Row, reference: seq<real>)
    requires slot < slots && r < slots && r != slot && |out| == Offset(slots, EMBED_DIM) && |row| == EMBED_DIM
    ensures Offset(r, EMBED_DIM) + EMBED_DIM <= |out|
    ensures Passes(Some(Overwrite(out, r, row)), slot, reference) == Passes(Some(out), slot, reference)
  {
    RowFits(r, slots, EMBED_DIM);
    RowFits(slot, slots, EMBED_DIM);
    if r < slot {
      RowFits(r, slot, EMBED_DIM);
    } else {
      RowFits(slot, r, EMBED_DIM);
    }
    SplicedSlice(out, row, Offset(r, EMBED_DIM), Offset(slot, EMBED_DIM));
  }

  // ---------------------------------------------------------------- 3i

  method BuildFillers(n: nat, filler: nat -> Row) returns (flat: seq<real>)
    ensures flat == Concat(Copied(n, filler))
  {
    flat := [];
    for i := 0 to n
      invariant flat == Concat(Copied(i, filler))
    {
      assert Copied(i + 1, filler)[..i] == Copied(i, filler);
      flat := flat + filler(i);
    }
  }

  function Copied(n: nat, filler: nat -> Row): seq<Row> {
    seq(n, k requires 0 <= k < n => filler(k))
  }

  /** A batch of fillers alone is a batch whose probe mask is the filler of the probe's slot. */
  lemma FillersAreMasks(n: nat, slot: nat, filler: nat -> Row)
    ensures Copied(n, filler) == Masks(n, slot, filler(slot), filler)
  {
  }

  lemma OneGroup(n: nat)
    ensures Offset(n, 1) == n
  {
  }

  /** The one row cut out of a row-major buffer between two row boundaries. */
  method CutRow(flat: seq<real>, width: nat, r: nat, ghost rows: nat) returns (row: Row)
    requires r < rows && |flat| == Offset(rows, width)
    ensures Offset(r, width) + width <= |flat| && row == RowOf(flat, width, r)
  {
    RowFits(r, rows, width);
    OffsetStep(r, width);
    row := flat[r * width..(r + 1) * width];
  }

  lemma FillerBuffer(n: nat, base: nat, frames: nat, r: nat)
    requires r < n
    ensures |Concat(Copied(n, Seeded(base, frames)))| == Offset(n, frames)
    ensures Offset(r, frames) + frames <= |Concat(Copied(n, Seeded(base, frames)))|
    ensures RowOf(Concat(Copied(n, Seeded(base, frames))), frames, r) == Seeded(base, frames)(r)
  {
    SeededLength(base, frames);
    ConcatLength(Copied(n, Seeded(base, frames)), frames);
    RowMajor(Copied(n, Seeded(base, frames)), frames, r);
  }

  lemma FillersAnswer(graph: Graph, x: Row, batch: nat, probe: nat, filler: nat -> Row)
    requires probe < batch
    ensures Answer(graph, x, filler(probe), batch, 1, probe, filler)
         == graph(Concat(Copies(x, batch)), Concat(Copied(batch, filler)))
  {
    FillersAreMasks(batch, probe, filler);
    OneGroup(batch);
    OneGroup(probe);
  }

  /** Stage 3i: every row is a filler, and the batch-1 graph is asked about the row cut out of the
      buffer. */
  method ProbeFillers(graph: Graph, single: Graph, x: Row, batch: nat, probe: nat, base: nat, frames: nat) returns (ok: bool)
    requires probe < batch && HasShape(graph, batch)
    ensures var filler := Seeded(base, frames);
            ok == (single(x, filler(probe)).Some?
                   && Passes(Answer(graph, x, filler(probe), batch, 1, probe, filler), probe, single(x, filler(probe)).value))
  {
    var xs := BuildCopies(x, batch);
    var masks := BuildFillers(batch, Seeded(base, frames));
    FillersAnswer(graph, x, batch, probe, Seeded(base, frames));
    var out := graph(xs, masks);
    if out.None? {
      return false;
    }
    FillerBuffer(batch, base, frames, probe);
    var mask := CutRow(masks, frames, probe, batch);
    var expected := single(x, mask);
    if expected.None? {
      return false;
    }
    var row := CutRow(out.value, EMBED_DIM, probe, batch);
    var worst := Compare(row, expected.value);
    ok := worst <= TOL;
  }

  // ---------------------------------------------------------------- stage 3, batch by batch

  datatype Failure = Fail3e | Fail3g(batch: nat) | Fail3h | Fail3i

  /** The batched graphs of the set, with the batch-1 tail that 3i asks. */
  datatype Graphs = Graphs(multimask32: Graph, tail3: Graph, tail32: Graph, fused32: Graph, tail64: Graph, tail1: Graph) {
    ghost predicate Shaped() {
      && HasShape(multimask32, Offset(32, 3)) && HasShape(tail3, Offset(3, 1)) && HasShape(tail32, Offset(32, 1))
      && HasShape(fused32, Offset(32, 1)) && HasShape(tail64, 64)
    }
  }

  /** What the batch-1 graphs answered on the probe. */
  datatype References = References(multimask: seq<real>, split: seq<real>, fused: seq<real>)

  predicate Pass3e(g: Graphs, fbank: Row, mask: Row, refs: References) {
    Passes(Answer(g.multimask32, fbank, mask, 32, 3, PROBE_ROW, Seeded(0xB100, |mask|)), Offset(PROBE_ROW, 3), refs.multimask)
  }

  predicate Pass3g(graph: Graph, batch: nat, fbank: Row, mask: Row, refs: References)
    requires batch > 0
  {
    var probe := if PROBE_ROW <= batch - 1 then PROBE_ROW else batch - 1;
    Passes(Answer(graph, fbank, mask, batch, 1, probe, Seeded(0xC200, |mask|)), Offset(probe, 1), refs.split)
  }

  predicate Pass3h(g: Graphs, wave: Row, mask: Row, refs: References) {
    Passes(Answer(g.fused32, wave, mask, 32, 1, PROBE_ROW, Seeded(0xD300, |mask|)), Offset(PROBE_ROW, 1), refs.fused)
  }

  predicate Pass3i(g: Graphs, fbank: Row, frames: nat) {
    var filler := Seeded(0xA5A5, frames);
    && g.tail1(fbank, filler(7)).Some?
    && Passes(Answer(g.tail64, fbank, filler(7), 64, 1, 7, filler), 7, g.tail1(fbank, filler(7)).value)
  }

  /** The first failing check is the one reported. */
  function FirstFailure(g: Graphs, fbank: Row, wave: Row, mask: Row, refs: References, fast: bool): Option<Failure> {
    if !Pass3e(g, fbank, mask, refs) then Some(Fail3e)
    else if !Pass3g(g.tail3, 3, fbank, mask, refs) then Some(Fail3g(3))
    else if !Pass3g(g.tail32, 32, fbank, mask, refs) then Some(Fail3g(32))
    else if !Pass3h(g, wave, mask, refs) then Some(Fail3h)
    else if fast && !Pass3i(g, fbank, |mask|) then Some(Fail3i)
    else None
  }

  method Stage3(g: Graphs, fbank: Row, wave: Row, mask: Row, refs: References, fast: bool) returns (failure: Option<Failure>)
    requires g.Shaped()
    ensures failure == FirstFailure(g, fbank, wave, mask, refs, fast)
  {
    var ok := Probe(g.multimask32, fbank, mask, 32, 3, PROBE_ROW, 0xB100, refs.multimask);
    if !ok {
      return Some(Fail3e);
    }
    ok := Probe(g.tail3, fbank, mask, 3, 1, 2, 0xC200, refs.split);
    if !ok {
      return Some(Fail3g(3));
    }
    ok := Probe(g.tail32, fbank, mask, 32, 1, PROBE_ROW, 0xC200, refs.split);
    if !ok {
      return Some(Fail3g(32));
    }
    ok := Probe(g.fused32, wave, mask, 32, 1, PROBE_ROW, 0xD300, refs.fused);
    if !ok {
      return Some(Fail3h);
    }
    if fast {
      ok := ProbeFillers(g.tail64, g.tail1, fbank, 64, 7, 0xA5A5, |mask|);
      if !ok {
        return Some(Fail3i);
      }
    }
    return None;
  }

  function Identity(): nat -> nat {
    (k: nat) => k
  }

  /** A per-row lift passes exactly when its batch-1 function agrees with the reference on the
      probe's own question; the fillers and the other rows drop out. */
  lemma LiftPassesExactlyWhen(graph: Graph, tail: Tail, batch: nat, groups: nat, probe: nat, x: Row, mask: Row,
                              base: nat, reference: seq<real>)
    requires probe < batch && groups > 0 && |reference| == EMBED_DIM
    requires Lifts(graph, tail, batch, groups, Identity(), |x|, |mask|)
    ensures Passes(Answer(graph, x, mask, batch, groups, probe, Seeded(base, |mask|)), Offset(probe, groups), reference)
            <==> Close(tail(x, mask), reference)
  {
    SeededLength(base, |mask|);
    ProbeExactlyWhen(graph, tail, batch, groups, Identity(), probe, x, mask, Seeded(base, |mask|), reference);
  }

  /** The functions the batched graphs are made of; `single` is what `tail1` computes. */
  datatype Tails = Tails(multimask32: Tail, tail3: Tail, tail32: Tail, fused32: Tail, tail64: Tail, single: Tail)

  ghost predicate AllLift(g: Graphs, t: Tails, fbank: Row, wave: Row, frames: nat) {
    && Lifts(g.multimask32, t.multimask32, 32, 3, Identity(), |fbank|, frames)
    && Lifts(g.tail3, t.tail3, 3, 1, Identity(), |fbank|, frames)
    && Lifts(g.tail32, t.tail32, 32, 1, Identity(), |fbank|, frames)
    && Lifts(g.fused32, t.fused32, 32, 1, Identity(), |wave|, frames)
    && Lifts(g.tail64, t.tail64, 64, 1, Identity(), |fbank|, frames)
    && (forall m: Row :: |m| == frames ==> g.tail1(fbank, m) == Some(t.single(fbank, m)) && |t.single(fbank, m)| == EMBED_DIM)
  }

  lemma FillerPassesExactlyWhen(g: Graphs, t: Tails, fbank: Row, wave: Row, frames: nat)
    requires AllLift(g, t, fbank, wave, frames)
    ensures Pass3i(g, fbank, frames) <==> Close(t.tail64(fbank, Seeded(0xA5A5, frames)(7)), t.single(fbank, Seeded(0xA5A5, frames)(7)))
  {
    var filler := Seeded(0xA5A5, frames);
    SeededLength(0xA5A5, frames);
    OneGroup(7);
    ProbeExactlyWhen(g.tail64, t.tail64, 64, 1, Identity(), 7, fbank, filler(7), filler, t.single(fbank, filler(7)));
  }

  /** MAIN RESULT. Of graphs that are per-row lifts the batch checks accept exactly those whose
      batch-1 functions agree with the references on the probe's question. */
  lemma LiftedGraphsPassExactlyWhen(g: Graphs, t: Tails, fbank: Row, wave: Row, mask: Row, refs: References, fast: bool)
    requires AllLift(g, t, fbank, wave, |mask|)
    requires |refs.multimask| == |refs.split| == |refs.fused| == EMBED_DIM
    ensures FirstFailure(g, fbank, wave, mask, refs, fast) == None <==>
            && Close(t.multimask32(fbank, mask), refs.multimask)
            && Close(t.tail3(fbank, mask), refs.split)
            && Close(t.tail32(fbank, mask), refs.split)
            && Close(t.fused32(wave, mask), refs.fused)
            && (fast ==> Close(t.tail64(fbank, Seeded(0xA5A5, |mask|)(7)), t.single(fbank, Seeded(0xA5A5, |mask|)(7))))
  {
    LiftPassesExactlyWhen(g.multimask32, t.multimask32, 32, 3, PROBE_ROW, fbank, mask, 0xB100, refs.multimask);
    LiftPassesExactlyWhen(g.tail3, t.tail3, 3, 1, 2, fbank, mask, 0xC200, refs.split);
    LiftPassesExactlyWhen(g.tail32, t.tail32, 32, 1, PROBE_ROW, fbank, mask, 0xC200, refs.split);
    LiftPassesExactlyWhen(g.fused32, t.fused32, 32, 1, PROBE_ROW, wave, mask, 0xD300, refs.fused);
    FillerPassesExactlyWhen(g, t, fbank, wave, |mask|);
  }

  /** Of graphs that are per-row lifts, the check that is reported is the first whose batch-1 function
      disagrees with its reference. */
  lemma LiftedGraphsFailExactlyWhen(g: Graphs, t: Tails, fbank: Row, wave: Row, mask: Row, refs: References, fast: bool)
    requires AllLift(g, t, fbank, wave, |mask|)
    requires |refs.multimask| == |refs.split| == |refs.fused| == EMBED_DIM
    ensures var r := FirstFailure(g, fbank, wave, mask, refs, fast);
            var ok3e, ok3, ok32 := Close(t.multimask32(fbank, mask), refs.multimask), Close(t.tail3(fbank, mask), refs.split),
                                   Close(t.tail32(fbank, mask), refs.split);
            var okH := Close(t.fused32(wave, mask), refs.fused);
            && (r == Some(Fail3e) <==> !ok3e)
            && (r == Some(Fail3g(3)) <==> ok3e && !ok3)
            && (r == Some(Fail3g(32)) <==> ok3e && ok3 && !ok32)
            && (r == Some(Fail3h) <==> ok3e && ok3 && ok32 && !okH)
            && (r == Some(Fail3i) <==>
                  && ok3e && ok3 && ok32 && okH && fast
                  && !Close(t.tail64(fbank, Seeded(0xA5A5, |mask|)(7)), t.single(fbank, Seeded(0xA5A5, |mask|)(7))))
  {
    FillerPassesExactlyWhen(g, t, fbank, wave, |mask|);
    LiftPassesExactlyWhen(g.multimask32, t.multimask32, 32, 3, PROBE_ROW, fbank, mask, 0xB100, refs.multimask);
    LiftPassesExactlyWhen(g.tail3, t.tail3, 3, 1, 2, fbank, mask, 0xC200, refs.split);
    LiftPassesExactlyWhen(g.tail32, t.tail32, 32, 1, PROBE_ROW, fbank, mask, 0xC200, refs.split);
    LiftPassesExactlyWhen(g.fused32, t.fused32, 32, 1, PROBE_ROW, wave, mask, 0xD300, refs.fused);
  }

  /** The probe's slot is taken for the first of the batch. */
  function ToFirst(): nat -> nat {
    (k: nat) => 0
  }

  ghost predicate AllToFirst(g: Graphs, t: Tails, fbank: Row, wave: Row, frames: nat) {
    && Lifts(g.multimask32, t.multimask32, 32, 3, ToFirst(), |fbank|, frames)
    && Lifts(g.tail3, t.tail3, 3, 1, ToFirst(), |fbank|, frames)
    && Lifts(g.tail32, t.tail32, 32, 1, ToFirst(), |fbank|, frames)
    && Lifts(g.fused32, t.fused32, 32, 1, ToFirst(), |wave|, frames)
  }

  /** Graphs that answer every slot for the first mask of the batch are asked about the first filler
      instead of the probe mask, in every check on it, and no first filler is the probe mask. */
  lemma FirstMaskIsNoAnswer(g: Graphs, t: Tails, fbank: Row, wave: Row, mask: Row, seed: nat, refs: References)
    requires AllToFirst(g, t, fbank, wave, |mask|) && |mask| >= 4
    requires seed < 0xA5A5 && mask == SeededMask.Row(seed, |mask|)
    requires |refs.multimask| == |refs.split| == |refs.fused| == EMBED_DIM
    ensures var first := (base: Xorshift.Seed) => SeededMask.Row(base, |mask|);
            && mask != first(0xB100) && mask != first(0xC200) && mask != first(0xD300)
            && (FirstFailure(g, fbank, wave, mask, refs, false) == None <==>
                  && Close(t.multimask32(fbank, first(0xB100)), refs.multimask)
                  && Close(t.tail3(fbank, first(0xC200)), refs.split)
                  && Close(t.tail32(fbank, first(0xC200)), refs.split)
                  && Close(t.fused32(wave, first(0xD300)), refs.fused))
  {
    ToFirstIsAskedTheFiller(g.multimask32, t.multimask32, 32, 3, PROBE_ROW, fbank, mask, seed, 0xB100, refs.multimask);
    ToFirstIsAskedTheFiller(g.tail3, t.tail3, 3, 1, 2, fbank, mask, seed, 0xC200, refs.split);
    ToFirstIsAskedTheFiller(g.tail32, t.tail32, 32, 1, PROBE_ROW, fbank, mask, seed, 0xC200, refs.split);
    ToFirstIsAskedTheFiller(g.fused32, t.fused32, 32, 1, PROBE_ROW, wave, mask, seed, 0xD300, refs.fused);
  }

  lemma ToFirstIsAskedTheFiller(graph: Graph, tail: Tail, batch: nat, groups: nat, probe: nat, x: Row, mask: Row,
                                seed: nat, base: nat, reference: seq<real>)
    requires 0 < probe < batch && groups > 0 && |reference| == EMBED_DIM && |mask| >= 4
    requires Lifts(graph, tail, batch, groups, ToFirst(), |x|, |mask|)
    requires seed < base < 0x1_0000_0000 && mask == SeededMask.Row(seed, |mask|)
    ensures mask != SeededMask.Row(base, |mask|)
    ensures Passes(Answer(graph, x, mask, batch, groups, probe, Seeded(base, |mask|)), Offset(probe, groups), reference)
            <==> Close(tail(x, SeededMask.Row(base, |mask|)), reference)
  {
    RowFits(0, probe, groups);
    assert Offset(0, groups) == 0;
    SmallFillerSeed(base, 0);
    CoupledRowsAreAskedAnotherMask(graph, tail, batch, groups, ToFirst(), probe, x, seed, base, |mask|, 0, reference);
  }

  /** 3i asks about the filler of slot 7. */
  lemma FillerCheckIs(g: Graphs, t: Tails, fbank: Row, wave: Row, frames: nat)
    requires AllLift(g, t, fbank, wave, frames)
    ensures Pass3i(g, fbank, frames) <==>
            Close(t.tail64(fbank, SeededMask.Row(0xA5AC, frames)), t.single(fbank, SeededMask.Row(0xA5AC, frames)))
  {
    FillerPassesExactlyWhen(g, t, fbank, wave, frames);
    SmallFillerSeed(0xA5A5, 7);
  }

  ghost predicate Silent(graph: Graph) {
    forall x, masks :: graph(x, masks).None?
  }

  /** An inference that fails is never accepted. */
  lemma SilentGraphIsRejected(g: Graphs, fbank: Row, wave: Row, mask: Row, refs: References, fast: bool)
    requires || Silent(g.multimask32) || Silent(g.tail3) || Silent(g.tail32) || Silent(g.fused32)
             || (fast && (Silent(g.tail64) || Silent(g.tail1)))
    ensures FirstFailure(g, fbank, wave, mask, refs, fast).Some?
  {
  }
}
