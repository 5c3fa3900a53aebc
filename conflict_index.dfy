/**
 The conflict index of the interactive repairer: two adjacency tables,
 conflict-set index -> member mapping indices and mapping index -> conflict
 sets containing it, kept as exact transposes of each other. A table is a
 finite map from a key to the set of its entries.
 */
module ConflictIndex {

  type Table = map<int, set<int>>

  /** Adds `v` to the entries of `k`, creating the entry of `k` if it is absent. */
  function Add(t: Table, k: int, v: int): (r: Table)
    ensures r.Keys == t.Keys + {k}
    ensures r[k] == (if k in t then t[k] else {}) + {v}
    ensures forall x :: x in t && x != k ==> r[x] == t[x]
  {
    if k in t then t[k := t[k] + {v}] else t[k := {v}]
  }

  /** `j` is listed under `i` in `cm` exactly when `i` is listed under `j` in `mc`. */
  ghost predicate Transposed(cm: Table, mc: Table)
  {
    && (forall i, j :: i in cm && j in cm[i] ==> j in mc && i in mc[j])
    && (forall j, i :: j in mc && i in mc[j] ==> i in cm && j in cm[i])
  }

  ghost predicate NoEmptyEntry(t: Table)
  {
    forall k :: k in t ==> t[k] != {}
  }

  /** The invariant of the index: transposed tables, no key without entries. */
  ghost predicate Consistent(cm: Table, mc: Table)
  {
    Transposed(cm, mc) && NoEmptyEntry(cm) && NoEmptyEntry(mc)
  }

  /** Every mapping index in a conflict set is a position of an alignment of length n. */
  ghost predicate IndicesBelow(conflictSets: seq<set<int>>, n: nat)
  {
    forall i, j :: 0 <= i < |conflictSets| && j in conflictSets[i] ==> 0 <= j < n
  }

  /** Conflict-set index -> members, as the initial build produces it. */
  ghost function ConflictTable(conflictSets: seq<set<int>>): Table
  {
    map i | 0 <= i < |conflictSets| && conflictSets[i] != {} :: conflictSets[i]
  }

  /** Every mapping index that belongs to some conflict set. */
  ghost function Members(conflictSets: seq<set<int>>): set<int>
  {
    set i, j | 0 <= i < |conflictSets| && j in conflictSets[i] :: j
  }

  /** Mapping index -> conflict sets containing it, as the initial build produces it. */
  ghost function MappingTable(conflictSets: seq<set<int>>): Table
  {
    map j | j in Members(conflictSets) :: set i | 0 <= i < |conflictSets| && j in conflictSets[i]
  }

  /** The index as built from the conflict sets satisfies the invariant, and
      every mapping it lists is a valid alignment position. */
  lemma InitialTablesConsistent(conflictSets: seq<set<int>>, n: nat)
    ensures Consistent(ConflictTable(conflictSets), MappingTable(conflictSets))
    ensures MappingTable(conflictSets).Keys == Members(conflictSets)
    ensures IndicesBelow(conflictSets, n) ==> forall j :: j in MappingTable(conflictSets) ==> 0 <= j < n
  {
    var cm, mc := ConflictTable(conflictSets), MappingTable(conflictSets);
    forall i, j | i in cm && j in cm[i] ensures j in mc && i in mc[j] {
      assert j in Members(conflictSets);
    }
    forall j | j in mc ensures mc[j] != {} {
      var i, j' :| 0 <= i < |conflictSets| && j' in conflictSets[i] && j' == j;
      assert i in mc[j];
    }
    if IndicesBelow(conflictSets, n) {
      forall j | j in mc ensures 0 <= j < n {
        var i, j' :| 0 <= i < |conflictSets| && j' in conflictSets[i] && j' == j;
      }
    }
  }

  /** An empty last conflict set contributes nothing to the tables. */
  lemma TablesIgnoreEmptySet(s: seq<set<int>>)
    ensures ConflictTable(s + [{}]) == ConflictTable(s)
    ensures MappingTable(s + [{}]) == MappingTable(s)
  {
    var s' := s + [{}];
    assert forall i :: 0 <= i < |s| ==> s'[i] == s[i];
    assert Members(s') == Members(s) by {
      forall j | j in Members(s') ensures j in Members(s) {
        var i, j' :| 0 <= i < |s'| && j' in s'[i] && j' == j;
      }
      forall j | j in Members(s) ensures j in Members(s') {
        var i, j' :| 0 <= i < |s| && j' in s[i] && j' == j;
        assert j in s'[i];
      }
    }
    forall j | j in Members(s)
      ensures MappingTable(s')[j] == MappingTable(s)[j]
    {
      assert (set i | 0 <= i < |s'| && j in s'[i]) == (set i | 0 <= i < |s| && j in s[i]);
    }
  }

  /** Adding one member `j` to the last conflict set adds `j` to its entry. */
  lemma ConflictTableExtend(s: seq<set<int>>, d: set<int>, j: int)
    ensures ConflictTable(s + [d + {j}]) == Add(ConflictTable(s + [d]), |s|, j)
  {
    var s0, s1 := s + [d], s + [d + {j}];
    assert forall i :: 0 <= i < |s| ==> s0[i] == s[i] && s1[i] == s[i];
    var c0, c1 := ConflictTable(s0), ConflictTable(s1);
    assert c1.Keys == c0.Keys + {|s|};
    forall i | i in c1 ensures c1[i] == Add(c0, |s|, j)[i] {
      if i == |s| {
        assert d == {} ==> |s| !in c0;
      }
    }
  }

  /** Adding one member `j` to the last conflict set adds that set to the entry of `j`. */
  lemma MappingTableExtend(s: seq<set<int>>, d: set<int>, j: int)
    ensures MappingTable(s + [d + {j}]) == Add(MappingTable(s + [d]), j, |s|)
  {
    var s0, s1 := s + [d], s + [d + {j}];
    assert forall i :: 0 <= i < |s| ==> s0[i] == s[i] && s1[i] == s[i];
    assert s1[|s|] == d + {j} && s0[|s|] == d;
    assert Members(s1) == Members(s0) + {j} by {
      assert j in Members(s1) by { assert j in s1[|s|]; }
      forall x | x in Members(s1) ensures x in Members(s0) + {j} {
        var i, x' :| 0 <= i < |s1| && x' in s1[i] && x' == x;
        if x != j { assert x in s0[i]; }
      }
      forall x | x in Members(s0) ensures x in Members(s1) {
        var i, x' :| 0 <= i < |s0| && x' in s0[i] && x' == x;
        assert x in s1[i];
      }
    }
    var m0, m1 := MappingTable(s0), MappingTable(s1);
    forall x | x in m1 ensures m1[x] == Add(m0, j, |s|)[x] {
      if x == j {
        assert m1[x] == (if j in m0 then m0[j] else {}) + {|s|};
      } else {
        assert m1[x] == m0[x];
      }
    }
  }

  /** The mapping table once the conflict sets in `dead` are dissolved: `dead`
      is struck from every entry and mappings left with no entry are dropped. */
  ghost function Dissolve(mc: Table, dead: set<int>): Table
  {
    map j | j in mc && mc[j] - dead != {} :: mc[j] - dead
  }

  /** The conflict table restricted to the sets that contain no removed mapping. */
  ghost function Survivors(cm: Table, removed: set<int>): Table
  {
    map i | i in cm && cm[i] !! removed :: cm[i]
  }

  /** The mapping table part-way through dissolving conflict set `c`: `c` has
      been struck from the entries of the mappings in `done`, and those left
      with no entry are dropped. */
  ghost function Strip(t: Table, c: int, done: set<int>): Table
  {
    map j | j in t && (j in done ==> t[j] - {c} != {}) :: if j in done then t[j] - {c} else t[j]
  }

  /** A set of size one that holds `c` is `{c}`. */
  lemma SingletonOf(s: set<int>, c: int)
    requires c in s
    ensures |s| == 1 <==> s - {c} == {}
  {
    assert s == (s - {c}) + {c};
    assert |s| == |s - {c}| + 1;
  }

  lemma StripNothing(t: Table, c: int)
    ensures Strip(t, c, {}) == t
  {
  }

  /** One step of the inner loop of remove: the entry of `j` holding only `c`
      is deleted, otherwise `c` is struck from it. */
  lemma StripStep(t: Table, c: int, done: set<int>, j: int)
    requires j in t && c in t[j] && j !in done
    ensures j in Strip(t, c, done) && c in Strip(t, c, done)[j]
    ensures var s := Strip(t, c, done);
      Strip(t, c, done + {j}) == if |s[j]| == 1 then s - {j} else s[j := s[j] - {c}]
  {
    var s := Strip(t, c, done);
    assert s[j] == t[j];
    SingletonOf(t[j], c);
  }

  /** Striking `c` from the entries of all its members is dissolving `c`. */
  lemma StripAllMembers(cm: Table, mc: Table, dead: set<int>, c: int)
    requires Transposed(cm, mc) && c in cm && c !in dead
    ensures forall j :: j in cm[c] ==> j in Dissolve(mc, dead) && c in Dissolve(mc, dead)[j]
    ensures Strip(Dissolve(mc, dead), c, cm[c]) == Dissolve(mc, dead + {c})
  {
    var t := Dissolve(mc, dead);
    forall j | j in cm[c] ensures j in t && t[j] - {c} == mc[j] - (dead + {c}) {
      assert c in mc[j] - dead;
    }
    var l, r := Strip(t, c, cm[c]), Dissolve(mc, dead + {c});
    forall j | j in mc ensures (j in l <==> j in r) && (j in l ==> l[j] == r[j]) {
      if j !in cm[c] {
        assert c !in mc[j];
        assert mc[j] - dead == mc[j] - (dead + {c});
      }
    }
  }

  /** Removing mapping `m` (dissolving every conflict set that contains it)
      keeps the index consistent, drops `m`, and leaves the conflict sets
      without `m` and their members as they were. */
  lemma RetireKeepsConsistent(cm: Table, mc: Table, m: int)
    requires Consistent(cm, mc) && m in mc
    ensures Consistent(cm - mc[m], Dissolve(mc, mc[m]))
    ensures m !in Dissolve(mc, mc[m])
    ensures Dissolve(mc, mc[m]).Keys <= mc.Keys - {m}
    ensures forall i :: i in cm ==> (i in cm - mc[m] <==> m !in cm[i])
  {
    var cm', mc' := cm - mc[m], Dissolve(mc, mc[m]);
    forall i, j | i in cm' && j in cm'[i] ensures j in mc' && i in mc'[j] {
      assert i in mc[j] && i !in mc[m];
      assert i in mc[j] - mc[m];
    }
    forall j, i | j in mc' && i in mc'[j] ensures i in cm' && j in cm'[i] {
    }
  }

  /** Dissolving in two rounds is dissolving the union at once. */
  lemma DissolveTwice(mc: Table, x: set<int>, y: set<int>)
    ensures Dissolve(Dissolve(mc, x), y) == Dissolve(mc, x + y)
  {
    var l, r := Dissolve(Dissolve(mc, x), y), Dissolve(mc, x + y);
    forall j | j in mc ensures (j in l <==> j in r) && (j in l ==> l[j] == r[j]) {
      assert mc[j] - x - y == mc[j] - (x + y);
    }
  }

  lemma DissolveNothing(mc: Table)
    requires NoEmptyEntry(mc)
    ensures Dissolve(mc, {}) == mc
  {
    forall j | j in mc ensures mc[j] - {} == mc[j] && mc[j] != {} {
    }
    assert Dissolve(mc, {}).Keys == mc.Keys;
  }

  /** The bookkeeping of one rejection in the repair loop: the tables reached
      from the initial ones (`cm0`, `mc0`) after rejecting the mappings in
      `removed` are described the same way after also rejecting `w`. */
  lemma RetireStep(cm0: Table, mc0: Table, removed: set<int>, cm: Table, mc: Table, w: int)
    requires cm == Survivors(cm0, removed)
    requires mc == Dissolve(mc0, cm0.Keys - cm.Keys)
    requires Consistent(cm, mc) && w in mc
    ensures cm - mc[w] == Survivors(cm0, removed + {w})
    ensures Dissolve(mc, mc[w]) == Dissolve(mc0, cm0.Keys - (cm - mc[w]).Keys)
  {
    forall i | i in cm0 ensures (i in cm - mc[w] <==> i in Survivors(cm0, removed + {w})) {
      if i in cm { assert (w in cm[i]) == (i in mc[w]); }
    }
    // The dissolved sets are live ones: each lists `w` in the conflict table.
    assert mc[w] <= cm.Keys by {
      forall i | i in mc[w] ensures i in cm && w in cm[i] {
        assert Transposed(cm, mc);
      }
    }
    assert cm.Keys <= cm0.Keys;
    assert cm0.Keys - (cm - mc[w]).Keys == (cm0.Keys - cm.Keys) + mc[w];
    DissolveTwice(mc0, cm0.Keys - cm.Keys, mc[w]);
  }

  /** A live conflict set has live members: no conflict sets, or no mappings
      left to adjudicate, means no mapping is listed. */
  lemma LiveConflictHasMember(cm: Table, mc: Table)
    requires Consistent(cm, mc)
    ensures |cm| == 0 <==> |mc| == 0
  {
    if |cm| != 0 {
      HasElement(cm.Keys);
      var i :| i in cm;
      HasElement(cm[i]);
      var j :| j in cm[i];
      assert j in mc;
    }
    if |mc| != 0 {
      HasElement(mc.Keys);
      var j :| j in mc;
      HasElement(mc[j]);
      var i :| i in mc[j];
      assert i in cm;
    }
  }

  /** Once every listed mapping is confirmed, every live conflict set
      consists of confirmed mappings only. */
  lemma ConfirmedCoverLiveSets(cm: Table, mc: Table, confirmed: set<int>)
    requires Transposed(cm, mc) && mc.Keys <= confirmed
    ensures forall i :: i in cm ==> cm[i] <= confirmed
  {
    forall i, j | i in cm && j in cm[i] ensures j in confirmed {
      assert j in mc;
    }
  }

  /** A non-empty set of indices has an element to pick. */
  lemma HasElement(s: set<int>)
    requires |s| != 0
    ensures exists x :: x in s
  {
    if forall x :: x !in s {
      assert false;
    }
  }
}
