/**
 * `gene_intersection`: the genes found in the `gene` column of a list of
 * dataframes, computed by a loop over one running set that is re-seeded
 * from the next dataframe whenever it is empty and intersected with the
 * next dataframe otherwise.
 */
module GeneSets {
  import opened Tables

  /** The values of the `gene` column of `t`, as a set. */
  function GenesOf(t: Table): set<Cell>
  {
    Keys(t.rows)
  }

  function GeneSetsOf(ts: seq<Table>): (gs: seq<set<Cell>>)
    ensures |gs| == |ts|
    ensures forall i :: 0 <= i < |ts| ==> gs[i] == GenesOf(ts[i])
  {
    if ts == [] then [] else GeneSetsOf(ts[..|ts| - 1]) + [GenesOf(ts[|ts| - 1])]
  }

  /** One pass of the loop body: an empty running set is re-seeded with
      `genes`, a non-empty one is intersected with it. */
  function Step<G>(acc: set<G>, genes: set<G>): set<G>
  {
    if |acc| == 0 then acc + genes else acc * genes
  }

  /** The running set once the loop has visited every set of `gs`, in order. */
  function Reseeded<G>(gs: seq<set<G>>): (r: set<G>)
    ensures gs == [] ==> r == {}
  {
    if gs == [] then {} else Step(Reseeded(gs[..|gs| - 1]), gs[|gs| - 1])
  }

  /** Reference definition: the elements present in every set of `gs`. */
  function CommonToAll<G>(gs: seq<set<G>>): set<G>
    requires |gs| > 0
  {
    set g | g in gs[0] && forall i :: 0 <= i < |gs| ==> g in gs[i]
  }

  /** The loop of `gene_intersection` as written. A dataframe without a
      `gene` column makes the column lookup fail. */
  method GeneIntersection(dataframes: seq<Table>) returns (r: Result<set<Cell>>)
    ensures r.Failure? ==> exists i :: 0 <= i < |dataframes| && "gene" !in dataframes[i].columns
    ensures r.Success? ==> forall i :: 0 <= i < |dataframes| ==> "gene" in dataframes[i].columns
    ensures r.Failure? ==> r.error == ColumnNotFound("gene")
    ensures r.Success? ==> r.value == Reseeded(GeneSetsOf(dataframes))
    ensures dataframes == [] ==> r == Success({})
  {
    var commonGenes: set<Cell> := {};
    ghost var gs := GeneSetsOf(dataframes);
    for i := 0 to |dataframes|
      invariant forall j :: 0 <= j < i ==> "gene" in dataframes[j].columns
      invariant commonGenes == Reseeded(gs[..i])
    {
      var df := dataframes[i];
      if "gene" !in df.columns {
        return Failure(ColumnNotFound("gene"));
      }
      ReseededPrefix(gs, i, commonGenes);
      if |commonGenes| == 0 {
        commonGenes := commonGenes + GenesOf(df);
      } else {
        commonGenes := commonGenes * GenesOf(df);
      }
    }
    assert gs[..|dataframes|] == gs;
    return Success(commonGenes);
  }

  /** One more set is one more pass of the loop. */
  lemma ReseededPrefix<G>(gs: seq<set<G>>, i: nat, acc: set<G>)
    requires i < |gs| && acc == Reseeded(gs[..i])
    ensures |acc| == 0 ==> Reseeded(gs[..i + 1]) == acc + gs[i]
    ensures |acc| != 0 ==> Reseeded(gs[..i + 1]) == acc * gs[i]
  {
    assert gs[..i + 1][..i] == gs[..i];
  }

  /** A gene that every dataframe has is always in the result. */
  lemma {:induction false} ReseededKeepsCommon<G>(gs: seq<set<G>>, g: G)
    requires |gs| > 0
    requires forall i :: 0 <= i < |gs| ==> g in gs[i]
    ensures g in Reseeded(gs)
  {
    var init := gs[..|gs| - 1];
    if |init| > 0 {
      ReseededKeepsCommon(init, g);
    }
  }

  /** The common elements of all sets are those of all but the last,
      intersected with the last. */
  lemma CommonToAllSnoc<G>(gs: seq<set<G>>)
    requires |gs| > 1
    ensures CommonToAll(gs) == CommonToAll(gs[..|gs| - 1]) * gs[|gs| - 1]
  {
    var init := gs[..|gs| - 1];
    forall g | g in CommonToAll(init) * gs[|gs| - 1] ensures g in CommonToAll(gs) {
      forall i | 0 <= i < |gs| ensures g in gs[i] {
        if i < |gs| - 1 {
          assert gs[i] == init[i];
        }
      }
    }
    forall g | g in CommonToAll(gs) ensures g in CommonToAll(init) {
      forall i | 0 <= i < |init| ensures g in init[i] {
        assert init[i] == gs[i];
      }
    }
  }

  /** When the dataframes do share a gene, re-seeding never happens after
      the first dataframe and the result is exactly the shared genes. */
  lemma {:induction false} ReseededIsCommonWhenNonEmpty<G>(gs: seq<set<G>>)
    requires |gs| > 0
    requires CommonToAll(gs) != {}
    ensures Reseeded(gs) == CommonToAll(gs)
  {
    var init := gs[..|gs| - 1];
    if |init| == 0 {
      assert Reseeded(init) == {};
      assert CommonToAll(gs) == gs[0];
    } else {
      CommonToAllSnoc(gs);
      ReseededIsCommonWhenNonEmpty(init);
      assert Reseeded(init) != {};
    }
  }

  /** For a non-empty list the result never holds a gene that the last
      dataframe lacks. */
  lemma ReseededWithinLast<G>(gs: seq<set<G>>)
    requires |gs| > 0
    ensures Reseeded(gs) <= gs[|gs| - 1]
  {
  }

  /** Re-seeding at work: three dataframes without a common gene give the
      genes of the last one. */
  lemma ReseedCounterexample()
    ensures Reseeded([{"A"}, {"B"}, {"C"}]) == {"C"}
  {
    var gs: seq<set<string>> := [{"A"}, {"B"}, {"C"}];
    assert gs[..2][..1] == [{"A"}];
    assert gs[..2] == [{"A"}, {"B"}];
    assert Reseeded([{"A"}]) == {"A"};
    assert Reseeded(gs[..2]) == {};
  }

  /** The result depends on the order of the dataframes. */
  lemma ReseededOrderMatters()
    ensures Reseeded([{"A"}, {"B"}, {"B"}]) == {"B"}
    ensures Reseeded([{"B"}, {"B"}, {"A"}]) == {}
  {
    var gs: seq<set<string>> := [{"A"}, {"B"}, {"B"}];
    assert gs[..2][..1] == [{"A"}];
    assert gs[..2] == [{"A"}, {"B"}];
    assert Reseeded([{"A"}]) == {"A"};
    assert Reseeded(gs[..2]) == {};
    var hs: seq<set<string>> := [{"B"}, {"B"}, {"A"}];
    assert hs[..2][..1] == [{"B"}];
    assert hs[..2] == [{"B"}, {"B"}];
    assert Reseeded([{"B"}]) == {"B"};
    assert Reseeded(hs[..2]) == {"B"};
  }

  /** Three overlapping gene lists share exactly B and C. */
  lemma SharedGenesExample()
    ensures Reseeded([{"A", "B", "C"}, {"B", "C", "D"}, {"A", "B", "C", "D"}]) == {"B", "C"}
  {
    var gs: seq<set<string>> := [{"A", "B", "C"}, {"B", "C", "D"}, {"A", "B", "C", "D"}];
    assert gs[..2][..1] == [{"A", "B", "C"}];
    assert gs[..2] == [{"A", "B", "C"}, {"B", "C", "D"}];
    assert Reseeded([{"A", "B", "C"}]) == {"A", "B", "C"};
    assert Reseeded(gs[..2]) == {"B", "C"};
  }

  /** The intended behaviour: the first dataframe seeds the set and every
      later one intersects it, so the result is the genes every dataframe
      has, and empty for an empty list. */
  function IntendedIntersection<G(!new)>(gs: seq<set<G>>): (r: set<G>)
    ensures gs == [] ==> r == {}
    ensures forall g :: g in r ==> forall i :: 0 <= i < |gs| ==> g in gs[i]
    ensures |gs| > 0 ==> forall g :: (forall i :: 0 <= i < |gs| ==> g in gs[i]) ==> g in r
  {
    if |gs| <= 1 then (if gs == [] then {} else gs[0])
    else IntendedIntersection(gs[..|gs| - 1]) * gs[|gs| - 1]
  }

  /** The loop as written and the intended intersection agree whenever the
      dataframes share a gene. */
  lemma ReseededAgreesWhenShared<G(!new)>(gs: seq<set<G>>)
    requires |gs| > 0
    requires CommonToAll(gs) != {}
    ensures Reseeded(gs) == IntendedIntersection(gs)
  {
    ReseededIsCommonWhenNonEmpty(gs);
  }

  /** ... and differ on the re-seeding input. */
  lemma ReseededDiffersFromIntended()
    ensures Reseeded([{"A"}, {"B"}, {"C"}]) != IntendedIntersection([{"A"}, {"B"}, {"C"}])
  {
    ReseedCounterexample();
    assert "C" !in {"A"};
  }
}
