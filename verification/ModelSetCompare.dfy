/** Tier B of the comparison of two model sets (scripts/compare_model_sets.py): operator histograms
    and weight tensors. A tensor's dtype, shape and content hash are one value, its print, and
    prints are ordered as Python orders such tuples. */
module ModelSetCompare {
  import opened Sorting

  datatype Tensor<F> = Tensor(name: string, fingerprint: F)

  datatype Graph<F> = Graph(ops: seq<string>, initializers: seq<Tensor<F>>)

  /** A dictionary by name as a list of its values: a repeated key replaces the value in place. */
  function Put<F>(entries: seq<Tensor<F>>, t: Tensor<F>): seq<Tensor<F>> {
    if entries == [] then [t]
    else if entries[0].name == t.name then [t] + entries[1..]
    else [entries[0]] + Put(entries[1..], t)
  }

  function ByName<F>(tensors: seq<Tensor<F>>): seq<Tensor<F>> {
    if tensors == [] then [] else Put(ByName(tensors[..|tensors| - 1]), tensors[|tensors| - 1])
  }

  function Prints<F>(tensors: seq<Tensor<F>>): (r: seq<F>)
    ensures |r| == |tensors|
  {
    seq(|tensors|, i requires 0 <= i < |tensors| => tensors[i].fingerprint)
  }

  /** The sorted prints. */
  method Fingerprints<F>(tensors: seq<Tensor<F>>, leq: (F, F) -> bool) returns (out: seq<F>)
    ensures out == Sort(leq, Prints(tensors))
  {
    out := [];
    for i := 0 to |tensors|
      invariant out == Prints(tensors[..i])
    {
      assert Prints(tensors[..i + 1]) == Prints(tensors[..i]) + [tensors[i].fingerprint];
      out := out + [tensors[i].fingerprint];
    }
    assert tensors[..|tensors|] == tensors;
    out := Sort(leq, out);
  }

  /** The prints of `a` that are nowhere in `b`. */
  function Only<F(==)>(a: seq<F>, b: seq<F>): seq<F> {
    if a == [] then [] else (if a[0] in b then [] else [a[0]]) + Only(a[1..], b)
  }

  datatype Verdict<F> =
    | Same
    | HistogramDiffers
    | CountDiffers
    | ContentDiffers(onlyA: seq<F>, onlyB: seq<F>)

  function Compare<F(==)>(a: Graph<F>, b: Graph<F>, leq: (F, F) -> bool): Verdict<F> {
    var ia, ib := ByName(a.initializers), ByName(b.initializers);
    var fa, fb := Sort(leq, Prints(ia)), Sort(leq, Prints(ib));
    if multiset(a.ops) != multiset(b.ops) then HistogramDiffers
    else if |ia| != |ib| then CountDiffers
    else if fa != fb then ContentDiffers(Only(fa, fb), Only(fb, fa))
    else Same
  }

  method CompareGraphs<F(==)>(a: Graph<F>, b: Graph<F>, leq: (F, F) -> bool) returns (v: Verdict<F>)
    ensures v == Compare(a, b, leq)
  {
    if multiset(a.ops) != multiset(b.ops) {
      return HistogramDiffers;
    }
    var ia, ib := ByName(a.initializers), ByName(b.initializers);
    if |ia| != |ib| {
      return CountDiffers;
    }
    var fa := Fingerprints(ia, leq);
    var fb := Fingerprints(ib, leq);
    v := if fa != fb then ContentDiffers(Only(fa, fb), Only(fb, fa)) else Same;
  }

  // ---------------------------------------------------------------- what the verdict means

  ghost predicate DistinctNames<F>(tensors: seq<Tensor<F>>) {
    forall i, j :: 0 <= i < j < |tensors| ==> tensors[i].name != tensors[j].name
  }

  lemma {:induction false} PutNew<F>(entries: seq<Tensor<F>>, t: Tensor<F>)
    requires forall e <- entries :: e.name != t.name
    ensures Put(entries, t) == entries + [t]
  {
    if entries != [] {
      assert entries[0] in entries && forall e <- entries[1..] :: e in entries;
      PutNew(entries[1..], t);
      assert entries == [entries[0]] + entries[1..];
    }
  }

  /** A graph whose initializers have distinct names loses none of them in the dictionary. */
  lemma {:induction false} ByNameKeeps<F>(tensors: seq<Tensor<F>>)
    requires DistinctNames(tensors)
    ensures ByName(tensors) == tensors
  {
    if tensors != [] {
      var rest, last := tensors[..|tensors| - 1], tensors[|tensors| - 1];
      ByNameKeeps(rest);
      forall e <- rest
        ensures e.name != last.name
      {
        var i :| 0 <= i < |rest| && rest[i] == e;
        assert tensors[i].name != tensors[|tensors| - 1].name;
      }
      PutNew(rest, last);
      assert tensors == rest + [last];
    }
  }

  ghost predicate Ordered<F(!new)>(leq: (F, F) -> bool) {
    Total(leq) && Transitive(leq) && Antisymmetric(leq)
  }

  /** The verdict is on what the dictionaries hold, as multisets. */
  lemma SameExactlyWhen<F(!new)>(a: Graph<F>, b: Graph<F>, leq: (F, F) -> bool)
    requires Ordered(leq)
    ensures Compare(a, b, leq) == Same <==>
            && multiset(a.ops) == multiset(b.ops)
            && multiset(Prints(ByName(a.initializers))) == multiset(Prints(ByName(b.initializers)))
  {
    var pa, pb := Prints(ByName(a.initializers)), Prints(ByName(b.initializers));
    SortsAgreeExactlyWhen(leq, pa, pb);
    assert |multiset(pa)| == |pa| && |multiset(pb)| == |pb|;
  }

  /** Of graphs that name each initializer once, exactly those pass whose operators and
      whose weight tensors are the same multisets: names and order have no part in it. */
  lemma SameIffSameMultisets<F(!new)>(a: Graph<F>, b: Graph<F>, leq: (F, F) -> bool)
    requires Ordered(leq) && DistinctNames(a.initializers) && DistinctNames(b.initializers)
    ensures Compare(a, b, leq) == Same <==>
            && multiset(a.ops) == multiset(b.ops)
            && multiset(Prints(a.initializers)) == multiset(Prints(b.initializers))
  {
    SameExactlyWhen(a, b, leq);
    ByNameKeeps(a.initializers);
    ByNameKeeps(b.initializers);
  }

  /** Tracing the same weights again under other names, in another order, never changes a verdict. */
  lemma RenamingKeepsTheVerdict<F(!new)>(a: Graph<F>, a': Graph<F>, b: Graph<F>, leq: (F, F) -> bool)
    requires Ordered(leq) && DistinctNames(a.initializers) && DistinctNames(a'.initializers)
    requires multiset(a.ops) == multiset(a'.ops) && multiset(Prints(a.initializers)) == multiset(Prints(a'.initializers))
    ensures Compare(a, b, leq) == Compare(a', b, leq)
  {
    ByNameKeeps(a.initializers);
    ByNameKeeps(a'.initializers);
    SortsAgreeExactlyWhen(leq, Prints(a.initializers), Prints(a'.initializers));
    assert |multiset(Prints(a.initializers))| == |multiset(Prints(a'.initializers))|;
  }

  ghost predicate HasName<F>(tensors: seq<Tensor<F>>, name: string) {
    exists i :: 0 <= i < |tensors| && tensors[i].name == name
  }

  lemma HasNameCons<F>(t: Tensor<F>, rest: seq<Tensor<F>>, name: string)
    ensures HasName([t] + rest, name) <==> t.name == name || HasName(rest, name)
  {
    var all := [t] + rest;
    if t.name == name {
      assert all[0].name == name;
    }
    if HasName(rest, name) {
      var i :| 0 <= i < |rest| && rest[i].name == name;
      assert all[i + 1].name == name;
    }
  }

  lemma HasNameSnoc<F>(rest: seq<Tensor<F>>, t: Tensor<F>, name: string)
    ensures HasName(rest + [t], name) <==> t.name == name || HasName(rest, name)
  {
    var all := rest + [t];
    if t.name == name {
      assert all[|rest|].name == name;
    }
    if HasName(rest, name) {
      var i :| 0 <= i < |rest| && rest[i].name == name;
      assert all[i].name == name;
    }
  }

  lemma DistinctCons<F>(t: Tensor<F>, rest: seq<Tensor<F>>)
    ensures DistinctNames([t] + rest) <==> !HasName(rest, t.name) && DistinctNames(rest)
  {
    var all := [t] + rest;
    if DistinctNames(all) {
      forall i | 0 <= i < |rest|
        ensures rest[i].name != t.name
      {
        assert all[0].name != all[i + 1].name;
      }
      forall i, j | 0 <= i < j < |rest|
        ensures rest[i].name != rest[j].name
      {
        assert all[i + 1].name != all[j + 1].name;
      }
    }
  }

  lemma DistinctSnoc<F>(rest: seq<Tensor<F>>, t: Tensor<F>)
    requires DistinctNames(rest) && !HasName(rest, t.name)
    ensures DistinctNames(rest + [t])
  {
  }

  lemma {:induction false} PutHasName<F>(entries: seq<Tensor<F>>, t: Tensor<F>, name: string)
    ensures HasName(Put(entries, t), name) <==> t.name == name || HasName(entries, name)
  {
    if entries == [] {
      HasNameCons(t, [], name);
      assert [t] + [] == [t];
    } else {
      HasNameCons(entries[0], entries[1..], name);
      assert entries == [entries[0]] + entries[1..];
      if entries[0].name == t.name {
        HasNameCons(t, entries[1..], name);
      } else {
        PutHasName(entries[1..], t, name);
        HasNameCons(entries[0], Put(entries[1..], t), name);
      }
    }
  }

  lemma {:induction false} PutKeepsDistinct<F>(entries: seq<Tensor<F>>, t: Tensor<F>)
    requires DistinctNames(entries)
    ensures DistinctNames(Put(entries, t))
  {
    if entries != [] {
      var rest := entries[1..];
      assert entries == [entries[0]] + rest;
      DistinctCons(entries[0], rest);
      if entries[0].name == t.name {
        DistinctCons(t, rest);
      } else {
        PutKeepsDistinct(rest, t);
        PutHasName(rest, t, entries[0].name);
        DistinctCons(entries[0], Put(rest, t));
      }
    }
  }

  lemma {:induction false} PutLength<F>(entries: seq<Tensor<F>>, t: Tensor<F>)
    ensures |Put(entries, t)| == |entries| + if HasName(entries, t.name) then 0 else 1
  {
    if entries != [] {
      PutLength(entries[1..], t);
      HasNameCons(entries[0], entries[1..], t.name);
      assert entries == [entries[0]] + entries[1..];
    }
  }

  lemma {:induction false} ByNameHasName<F>(tensors: seq<Tensor<F>>, name: string)
    ensures HasName(ByName(tensors), name) <==> HasName(tensors, name)
  {
    if tensors != [] {
      var rest, last := tensors[..|tensors| - 1], tensors[|tensors| - 1];
      ByNameHasName(rest, name);
      PutHasName(ByName(rest), last, name);
      HasNameSnoc(rest, last, name);
      assert tensors == rest + [last];
    }
  }

  /** The dictionary has each name once, and is shorter than the list if the list has one twice. */
  lemma {:induction false} ByNameIsDistinct<F>(tensors: seq<Tensor<F>>)
    ensures DistinctNames(ByName(tensors)) && |ByName(tensors)| <= |tensors|
    ensures |ByName(tensors)| == |tensors| ==> DistinctNames(tensors)
  {
    if tensors != [] {
      var rest, last := tensors[..|tensors| - 1], tensors[|tensors| - 1];
      ByNameIsDistinct(rest);
      PutKeepsDistinct(ByName(rest), last);
      PutLength(ByName(rest), last);
      ByNameHasName(rest, last.name);
      if |ByName(tensors)| == |tensors| {
        DistinctSnoc(rest, last);
        assert tensors == rest + [last];
      }
    }
  }

  /** The verdict says whether operators and all weight tensors agree. */
  ghost predicate VerdictIsRight<F(!new)>(a: Graph<F>, b: Graph<F>, leq: (F, F) -> bool) {
    Compare(a, b, leq) == Same <==>
    multiset(a.ops) == multiset(b.ops) && multiset(Prints(a.initializers)) == multiset(Prints(b.initializers))
  }

  /** A graph that names a tensor twice passes against one that lacks a tensor: the one its own
      dictionary describes. */
  lemma RepeatedNameHidesATensor<F(!new)>(a: Graph<F>, leq: (F, F) -> bool) returns (b: Graph<F>)
    requires Ordered(leq) && !DistinctNames(a.initializers)
    ensures DistinctNames(b.initializers) && |b.initializers| < |a.initializers|
    ensures Compare(a, b, leq) == Same && !VerdictIsRight(a, b, leq)
  {
    b := Graph(a.ops, ByName(a.initializers));
    ByNameIsDistinct(a.initializers);
    ByNameKeeps(b.initializers);
    SameExactlyWhen(a, b, leq);
    assert |multiset(Prints(a.initializers))| == |a.initializers|;
    assert |multiset(Prints(b.initializers))| == |b.initializers|;
  }

  /** MAIN RESULT. The verdicts on a graph, against every graph that names each tensor once, are
      right exactly when it names each tensor once itself. */
  lemma VerdictsAreRightExactlyWhen<F(!new)>(a: Graph<F>, leq: (F, F) -> bool)
    requires Ordered(leq)
    ensures DistinctNames(a.initializers) <==>
            forall b: Graph<F> :: DistinctNames(b.initializers) ==> VerdictIsRight(a, b, leq)
  {
    if DistinctNames(a.initializers) {
      forall b: Graph<F> | DistinctNames(b.initializers)
        ensures VerdictIsRight(a, b, leq)
      {
        SameIffSameMultisets(a, b, leq);
      }
    } else {
      var b := RepeatedNameHidesATensor(a, leq);
    }
  }

  lemma {:induction false} OnlyIsEmptyExactlyWhen<F>(a: seq<F>, b: seq<F>)
    ensures Only(a, b) == [] <==> forall x <- a :: x in b
  {
    if a != [] {
      OnlyIsEmptyExactlyWhen(a[1..], b);
      assert a == [a[0]] + a[1..];
    }
  }

  /** `Only` keeps what the other side lacks, as often as it is there. */
  lemma {:induction false} OnlyExactly<F>(a: seq<F>, b: seq<F>, x: F)
    ensures multiset(Only(a, b))[x] == if x in b then 0 else multiset(a)[x]
  {
    if a != [] {
      OnlyExactly(a[1..], b, x);
      assert a == [a[0]] + a[1..];
    }
  }

  /** Which verdict, and of a difference in content what each side is reported to have
      that the other lacks. */
  lemma VerdictExactlyWhen<F(!new)>(a: Graph<F>, b: Graph<F>, leq: (F, F) -> bool)
    requires Ordered(leq)
    ensures var v := Compare(a, b, leq);
            var pa, pb := Prints(ByName(a.initializers)), Prints(ByName(b.initializers));
            && (v == HistogramDiffers <==> multiset(a.ops) != multiset(b.ops))
            && (v == CountDiffers <==> multiset(a.ops) == multiset(b.ops) && |pa| != |pb|)
            && (v.ContentDiffers? <==> multiset(a.ops) == multiset(b.ops) && |pa| == |pb| && multiset(pa) != multiset(pb))
            && (v.ContentDiffers? ==> forall x ::
                  && multiset(v.onlyA)[x] == (if x in pb then 0 else multiset(pa)[x])
                  && multiset(v.onlyB)[x] == (if x in pa then 0 else multiset(pb)[x]))
  {
    var pa, pb := Prints(ByName(a.initializers)), Prints(ByName(b.initializers));
    var fa, fb := Sort(leq, pa), Sort(leq, pb);
    SortsAgreeExactlyWhen(leq, pa, pb);
    SortMultiset(leq, pa);
    SortMultiset(leq, pb);
    forall x
      ensures multiset(Only(fa, fb))[x] == (if x in pb then 0 else multiset(pa)[x])
      ensures multiset(Only(fb, fa))[x] == (if x in pa then 0 else multiset(pb)[x])
    {
      OnlyExactly(fa, fb, x);
      OnlyExactly(fb, fa, x);
      assert (x in fa <==> x in multiset(fa)) && (x in pa <==> x in multiset(pa));
      assert (x in fb <==> x in multiset(fb)) && (x in pb <==> x in multiset(pb));
    }
  }

  /** A dictionary holds the last tensor of each name. */
  lemma {:induction false} ByNameHoldsTheLast<F>(tensors: seq<Tensor<F>>, t: Tensor<F>)
    ensures t in ByName(tensors) <==>
            exists i :: 0 <= i < |tensors| && tensors[i] == t && !HasName(tensors[i + 1..], t.name)
  {
    if tensors != [] {
      var rest, last := tensors[..|tensors| - 1], tensors[|tensors| - 1];
      ByNameHoldsTheLast(rest, t);
      ByNameIsDistinct(rest);
      PutHolds(ByName(rest), last, t);
      assert tensors == rest + [last];
      forall i | 0 <= i < |rest|
        ensures tensors[i] == rest[i]
        ensures HasName(tensors[i + 1..], t.name) <==> last.name == t.name || HasName(rest[i + 1..], t.name)
      {
        assert tensors[i + 1..] == rest[i + 1..] + [last];
        HasNameSnoc(rest[i + 1..], last, t.name);
      }
      assert !HasName(tensors[|rest| + 1..], t.name);
    }
  }

  lemma {:induction false} PutHolds<F>(entries: seq<Tensor<F>>, new_: Tensor<F>, t: Tensor<F>)
    requires DistinctNames(entries)
    ensures t in Put(entries, new_) <==> t == new_ || (t in entries && t.name != new_.name)
  {
    if entries != [] {
      var rest := entries[1..];
      assert entries == [entries[0]] + rest;
      DistinctCons(entries[0], rest);
      PutHolds(rest, new_, t);
      if entries[0].name == new_.name && t in rest {
        var i :| 0 <= i < |rest| && rest[i] == t;
        assert t.name != entries[0].name;
      }
    }
  }

  /** The report of a difference names no tensor exactly when the two sides differ only in how often
      a tensor occurs. */
  lemma ReportIsSilentExactlyWhen<F(!new)>(a: Graph<F>, b: Graph<F>, leq: (F, F) -> bool)
    requires Ordered(leq) && Compare(a, b, leq).ContentDiffers?
    ensures var v := Compare(a, b, leq);
            var pa, pb := Prints(ByName(a.initializers)), Prints(ByName(b.initializers));
            && multiset(pa) != multiset(pb)
            && (v.onlyA == [] && v.onlyB == [] <==> (forall x :: x in pa <==> x in pb))
  {
    var pa, pb := Prints(ByName(a.initializers)), Prints(ByName(b.initializers));
    var fa, fb := Sort(leq, pa), Sort(leq, pb);
    SortsAgreeExactlyWhen(leq, pa, pb);
    SortMultiset(leq, pa);
    SortMultiset(leq, pb);
    assert forall x :: (x in fa <==> x in multiset(fa)) && (x in pa <==> x in multiset(pa));
    assert forall x :: (x in fb <==> x in multiset(fb)) && (x in pb <==> x in multiset(pb));
    OnlyIsEmptyExactlyWhen(fa, fb);
    OnlyIsEmptyExactlyWhen(fb, fa);
  }
}
