/**
 The interactive repairer: builds the conflict index from the conflict sets
 of an alignment, then repeatedly asks the oracle about the mapping that sits
 in the most live conflict sets (the least similar one on a tie), keeping the
 mappings it confirms and removing the ones it rejects, and finally returns
 the alignment without the rejected mappings.
 */
module InteractiveRepair {
  import opened Alignment
  import opened ConflictIndex

  /** The result of a repair run. `IndexOutOfRange(-1)` is the state in which
      the loop as written reads the alignment at position -1 and throws. */
  datatype Outcome = Repaired(alignment: seq<Mapping>) | IndexOutOfRange(index: int)

  /** No index is asked about twice. */
  ghost predicate Distinct(s: seq<int>)
  {
    forall p, q :: 0 <= p < q < |s| ==> s[p] != s[q]
  }

  /** A sequence of distinct elements drawn from `bound` is no longer than `bound` is large. */
  lemma {:induction false} DistinctBound(s: seq<int>, bound: set<int>)
    requires Distinct(s)
    requires forall p :: 0 <= p < |s| ==> s[p] in bound
    ensures |s| <= |bound|
  {
    if s != [] {
      var last := s[|s| - 1];
      var init := s[..|s| - 1];
      assert forall p :: 0 <= p < |init| ==> init[p] == s[p] && s[p] != last;
      DistinctBound(init, bound - {last});
      assert bound == (bound - {last}) + {last};
    }
  }

  /** A proper subset is strictly smaller. */
  lemma ProperSubsetSmaller(s: set<int>, t: set<int>)
    requires s < t
    ensures |s| < |t|
  {
    HasElement(t - s);
    var x :| x in t - s;
    assert s <= t - {x};
    assert |t - {x}| == |t| - 1;
  }

  /** `asked` lists the elements of `s`, each once. */
  ghost predicate Enumerates(asked: seq<int>, s: set<int>)
  {
    Distinct(asked) && forall k :: k in asked <==> k in s
  }

  /** The loop state of a repair run, relative to the tables `cm0` and `mc0`
      built at the start: the conflict sets still live are those without a
      rejected mapping, the mapping table has exactly the dissolved sets
      struck out, confirmed and rejected mappings are disjoint members of some
      conflict set whose verdicts the oracle gave, no rejected mapping is
      still listed, and `asked` is the sequence of oracle queries so far. */
  ghost predicate Bookkeeping(a: seq<Mapping>, oracle: Oracle, cm0: Table, mc0: Table,
                              cm: Table, mc: Table, correct: set<int>, toRemove: set<int>, asked: seq<int>)
  {
    && (forall j :: j in mc0 ==> 0 <= j < |a|)
    && cm == Survivors(cm0, toRemove)
    && mc == Dissolve(mc0, cm0.Keys - cm.Keys)
    && correct !! toRemove && correct <= mc0.Keys && toRemove <= mc0.Keys
    && toRemove !! mc.Keys
    && (forall k :: k in correct ==> 0 <= k < |a| && Accepts(oracle, a[k]))
    && (forall k :: k in toRemove ==> 0 <= k < |a| && !Accepts(oracle, a[k]))
    && Enumerates(asked, correct + toRemove)
  }

  /** The state right after the tables are built: nothing asked yet. */
  lemma BookkeepingStart(a: seq<Mapping>, oracle: Oracle, cs: seq<set<int>>)
    requires IndicesBelow(cs, |a|)
    ensures Bookkeeping(a, oracle, ConflictTable(cs), MappingTable(cs), ConflictTable(cs), MappingTable(cs), {}, {}, [])
    ensures MappingTable(cs).Keys == Members(cs)
  {
    InitialTablesConsistent(cs, |a|);
    DissolveNothing(MappingTable(cs));
    var cm0 := ConflictTable(cs);
    // No conflict set is dissolved yet; the solver needs this difference named.
    assert cm0.Keys - cm0.Keys == {};
    assert Survivors(cm0, {}) == cm0;
  }

  lemma EnumeratesAppend(asked: seq<int>, s: set<int>, w: int)
    requires Enumerates(asked, s) && w !in s
    ensures Enumerates(asked + [w], s + {w})
  {
    var asked' := asked + [w];
    forall p, q | 0 <= p < q < |asked'| ensures asked'[p] != asked'[q] {
      if q < |asked| {
        assert asked'[p] == asked[p] && asked'[q] == asked[q];
      } else {
        assert asked'[p] == asked[p] && asked[p] in asked;
      }
    }
  }

  /** Confirming an unconfirmed candidate `w` keeps the bookkeeping. */
  lemma BookkeepingAccept(a: seq<Mapping>, oracle: Oracle, cm0: Table, mc0: Table,
                          cm: Table, mc: Table, correct: set<int>, toRemove: set<int>, asked: seq<int>, w: int)
    requires Bookkeeping(a, oracle, cm0, mc0, cm, mc, correct, toRemove, asked)
    requires w in mc && w !in correct && 0 <= w < |a| && Accepts(oracle, a[w])
    ensures Bookkeeping(a, oracle, cm0, mc0, cm, mc, correct + {w}, toRemove, asked + [w])
  {
    assert mc.Keys <= mc0.Keys;
    EnumeratesAppend(asked, correct + toRemove, w);
    assert (correct + toRemove) + {w} == (correct + {w}) + toRemove;
  }

  /** Rejecting an unconfirmed candidate `w` and retiring it keeps the bookkeeping. */
  lemma BookkeepingReject(a: seq<Mapping>, oracle: Oracle, cm0: Table, mc0: Table,
                          cm: Table, mc: Table, correct: set<int>, toRemove: set<int>, asked: seq<int>, w: int)
    requires Bookkeeping(a, oracle, cm0, mc0, cm, mc, correct, toRemove, asked)
    requires Consistent(cm, mc)
    requires w in mc && w !in correct && 0 <= w < |a| && !Accepts(oracle, a[w])
    ensures Bookkeeping(a, oracle, cm0, mc0, cm - mc[w], Dissolve(mc, mc[w]), correct, toRemove + {w}, asked + [w])
  {
    assert mc.Keys <= mc0.Keys;
    RetireStep(cm0, mc0, toRemove, cm, mc, w);
    RetireKeepsConsistent(cm, mc, w);
    EnumeratesAppend(asked, correct + toRemove, w);
    assert (correct + toRemove) + {w} == correct + (toRemove + {w});
  }

  /** Every query names a distinct member of some conflict set, so the oracle
      is asked at most once per mapping that occurs in a conflict set. */
  lemma AskedAtMostOnceEach(a: seq<Mapping>, oracle: Oracle, cm0: Table, mc0: Table,
                            cm: Table, mc: Table, correct: set<int>, toRemove: set<int>, asked: seq<int>)
    requires Bookkeeping(a, oracle, cm0, mc0, cm, mc, correct, toRemove, asked)
    ensures |asked| <= |mc0|
  {
    assert forall p :: 0 <= p < |asked| ==> asked[p] in asked;
    DistinctBound(asked, mc0.Keys);
  }

  /** While nothing has been rejected the tables are the ones first built. */
  lemma NothingRejectedKeepsTables(cm0: Table, mc0: Table, cm: Table, mc: Table)
    requires NoEmptyEntry(mc0)
    requires cm == Survivors(cm0, {}) && mc == Dissolve(mc0, cm0.Keys - cm.Keys)
    ensures cm == cm0 && mc == mc0
  {
    assert Survivors(cm0, {}) == cm0;
    assert cm0.Keys - cm.Keys == {};
    DissolveNothing(mc0);
  }

  /** The state the repair loop works on: the two tables, the confirmed
      mappings and the rejected ones. */
  datatype Snapshot = Snapshot(cm: Table, mc: Table, correct: set<int>, removed: set<int>)

  /** The two stopping tests: the one on line 80 as written, which compares
      confirmed mappings with live conflict-set indices, and the corrected one,
      which compares them with the listed mappings. */
  datatype StopTest = LiveSetIndices | ListedMappings

  ghost predicate Stops(test: StopTest, s: Snapshot)
  {
    match test
    case LiveSetIndices => s.cm.Keys <= s.correct
    case ListedMappings => s.mc.Keys <= s.correct
  }

  /** The loop runs another round from `s`: a conflict set is live and the test has not fired. */
  ghost predicate Continues(test: StopTest, s: Snapshot)
  {
    |s.cm| != 0 && !Stops(test, s)
  }

  /** `w` is a mapping the selection may return in state `s`: an unconfirmed
      listed mapping in the most live conflict sets, least similar among those. */
  ghost predicate Worst(a: seq<Mapping>, s: Snapshot, w: int)
  {
    && w in s.mc && w !in s.correct && 0 <= w < |a|
    && (forall k :: k in s.mc && k !in s.correct ==> |s.mc[k]| <= |s.mc[w]|)
    && (forall k :: k in s.mc && k !in s.correct && |s.mc[k]| == |s.mc[w]| && 0 <= k < |a| ==>
          a[w].similarity <= a[k].similarity)
  }

  /** One round on mapping `w`: confirmed, or rejected and retired. */
  ghost function Step(a: seq<Mapping>, oracle: Oracle, s: Snapshot, w: int): Snapshot
    requires w in s.mc && 0 <= w < |a|
  {
    if Accepts(oracle, a[w]) then Snapshot(s.cm, s.mc, s.correct + {w}, s.removed)
    else Snapshot(s.cm - s.mc[w], Dissolve(s.mc, s.mc[w]), s.correct, s.removed + {w})
  }

  /** The state reached from `s0` by the rounds on the mappings in `asked`, in order. */
  ghost function Replay(a: seq<Mapping>, oracle: Oracle, s0: Snapshot, asked: seq<int>): Snapshot
    decreases |asked|
  {
    if asked == [] then s0
    else
      var s := Replay(a, oracle, s0, asked[..|asked| - 1]);
      var w := asked[|asked| - 1];
      if w in s.mc && 0 <= w < |a| then Step(a, oracle, s, w) else s
  }

  /** `asked` is a query sequence the loop can produce: before each query the
      loop had not stopped, and the mapping asked was a worst one. */
  ghost predicate Greedy(a: seq<Mapping>, oracle: Oracle, test: StopTest, s0: Snapshot, asked: seq<int>)
    decreases |asked|
  {
    if asked == [] then true
    else
      var prior := asked[..|asked| - 1];
      var s := Replay(a, oracle, s0, prior);
      Greedy(a, oracle, test, s0, prior) && Continues(test, s) && Worst(a, s, asked[|asked| - 1])
  }

  /** Another round with a worst mapping extends a greedy run by one step. */
  lemma GreedyStep(a: seq<Mapping>, oracle: Oracle, test: StopTest, s0: Snapshot, asked: seq<int>, w: int)
    requires Greedy(a, oracle, test, s0, asked)
    requires Continues(test, Replay(a, oracle, s0, asked)) && Worst(a, Replay(a, oracle, s0, asked), w)
    ensures Greedy(a, oracle, test, s0, asked + [w])
    ensures Replay(a, oracle, s0, asked + [w]) == Step(a, oracle, Replay(a, oracle, s0, asked), w)
  {
    assert (asked + [w])[..|asked|] == asked;
  }

  /** Every prefix of a greedy run is a greedy run. */
  lemma {:induction false} GreedyPrefix(a: seq<Mapping>, oracle: Oracle, test: StopTest, s0: Snapshot, asked: seq<int>, n: nat)
    requires Greedy(a, oracle, test, s0, asked) && n <= |asked|
    ensures Greedy(a, oracle, test, s0, asked[..n])
    decreases |asked|
  {
    if n == |asked| {
      assert asked[..n] == asked;
    } else {
      var prior := asked[..|asked| - 1];
      GreedyPrefix(a, oracle, test, s0, prior, n);
      assert prior[..n] == asked[..n];
    }
  }

  /** Query `p` of a greedy run was a worst mapping in the state replayed from
      the queries before it, and the loop had not stopped there. */
  lemma GreedyAt(a: seq<Mapping>, oracle: Oracle, test: StopTest, s0: Snapshot, asked: seq<int>, p: int)
    requires Greedy(a, oracle, test, s0, asked) && 0 <= p < |asked|
    ensures Continues(test, Replay(a, oracle, s0, asked[..p]))
    ensures Worst(a, Replay(a, oracle, s0, asked[..p]), asked[p])
    ensures Replay(a, oracle, s0, asked[..p + 1]) == Step(a, oracle, Replay(a, oracle, s0, asked[..p]), asked[p])
  {
    GreedyPrefix(a, oracle, test, s0, asked, p + 1);
    var run := asked[..p + 1];
    assert run[..p] == asked[..p] && run[p] == asked[p];
    assert Greedy(a, oracle, test, s0, run);
  }

  /** A greedy run that reaches a state where the loop stops ends there. */
  lemma GreedyStopsAt(a: seq<Mapping>, oracle: Oracle, test: StopTest, s0: Snapshot, asked: seq<int>, n: nat)
    requires Greedy(a, oracle, test, s0, asked) && n <= |asked|
    requires !Continues(test, Replay(a, oracle, s0, asked[..n]))
    ensures |asked| == n
  {
    if n < |asked| {
      GreedyAt(a, oracle, test, s0, asked, n);
    }
  }

  /** When every other candidate is in fewer conflict sets than `w`, or in as
      many and more similar, `w` is the only worst mapping. */
  lemma WorstIs(a: seq<Mapping>, s: Snapshot, w: int, v: int)
    requires w in s.mc && w !in s.correct && 0 <= w < |a|
    requires forall k :: k in s.mc && k !in s.correct && k != w ==>
               |s.mc[k]| < |s.mc[w]| || (|s.mc[k]| == |s.mc[w]| && 0 <= k < |a| && a[w].similarity < a[k].similarity)
    requires Worst(a, s, v)
    ensures v == w
  {
  }

  /** The state before the first query: the tables as built, nothing decided. */
  ghost function Start(cs: seq<set<int>>): Snapshot
  {
    Snapshot(ConflictTable(cs), MappingTable(cs), {}, {})
  }

  /** The repair loop's invariant: the closed-form bookkeeping of `s`, and `s`
      is the state reached by a greedy run asking `asked` under stopping test `test`. */
  ghost predicate Progress(a: seq<Mapping>, oracle: Oracle, test: StopTest, s0: Snapshot, s: Snapshot, asked: seq<int>)
  {
    && Bookkeeping(a, oracle, s0.cm, s0.mc, s.cm, s.mc, s.correct, s.removed, asked)
    && Greedy(a, oracle, test, s0, asked)
    && s == Replay(a, oracle, s0, asked)
  }

  /** Right after the tables are built the invariant holds with nothing asked. */
  lemma ProgressStart(a: seq<Mapping>, oracle: Oracle, test: StopTest, cs: seq<set<int>>)
    requires IndicesBelow(cs, |a|)
    ensures Progress(a, oracle, test, Start(cs), Start(cs), [])
    ensures MappingTable(cs).Keys == Members(cs)
  {
    BookkeepingStart(a, oracle, cs);
  }

  /** A round on a worst mapping, while the loop goes on, keeps the invariant. */
  lemma ProgressStep(a: seq<Mapping>, oracle: Oracle, test: StopTest, s0: Snapshot, s: Snapshot, asked: seq<int>, w: int)
    requires Progress(a, oracle, test, s0, s, asked)
    requires Consistent(s.cm, s.mc) && Continues(test, s) && Worst(a, s, w)
    ensures Progress(a, oracle, test, s0, Step(a, oracle, s, w), asked + [w])
  {
    GreedyStep(a, oracle, test, s0, asked, w);
    if Accepts(oracle, a[w]) {
      BookkeepingAccept(a, oracle, s0.cm, s0.mc, s.cm, s.mc, s.correct, s.removed, asked, w);
    } else {
      BookkeepingReject(a, oracle, s0.cm, s0.mc, s.cm, s.mc, s.correct, s.removed, asked, w);
    }
  }

  class InteractiveRepairer {
    var toRepair: seq<Mapping>
    var conflictSets: seq<set<int>>
    /** The mappings the oracle has confirmed. */
    var correct: set<int>
    /** Live conflict-set index -> its member mapping indices. */
    var conflictMappings: Table
    /** Mapping index -> the live conflict sets it belongs to. */
    var mappingConflicts: Table

    /** The index is consistent and lists only positions of the alignment. */
    ghost predicate Valid()
      reads this
    {
      && Consistent(conflictMappings, mappingConflicts)
      && forall j :: j in mappingConflicts ==> 0 <= j < |toRepair|
    }

    constructor ()
      ensures toRepair == [] && conflictSets == [] && correct == {}
      ensures conflictMappings == map[] && mappingConflicts == map[]
    {
      toRepair, conflictSets, correct := [], [], {};
      conflictMappings, mappingConflicts := map[], map[];
    }

    /** Builds both tables from the conflict sets and clears `correct`. */
    method Init()
      modifies this
      ensures toRepair == old(toRepair) && conflictSets == old(conflictSets)
      ensures conflictMappings == ConflictTable(conflictSets)
      ensures mappingConflicts == MappingTable(conflictSets)
      ensures correct == {}
      ensures IndicesBelow(conflictSets, |toRepair|) ==> Valid()
    {
      conflictMappings, mappingConflicts, correct := map[], map[], {};
      assert ConflictTable([]) == map[] && MappingTable([]) == map[];
      assert conflictSets[..0] == [];
      var i := 0;
      while i < |conflictSets|
        invariant toRepair == old(toRepair) && conflictSets == old(conflictSets) && correct == {}
        invariant 0 <= i <= |conflictSets|
        invariant conflictMappings == ConflictTable(conflictSets[..i])
        invariant mappingConflicts == MappingTable(conflictSets[..i])
      {
        var pending := conflictSets[i];
        TablesIgnoreEmptySet(conflictSets[..i]);
        assert conflictSets[i] - pending == {};
        while pending != {}
          invariant toRepair == old(toRepair) && conflictSets == old(conflictSets) && correct == {}
          invariant pending <= conflictSets[i]
          invariant conflictMappings == ConflictTable(conflictSets[..i] + [conflictSets[i] - pending])
          invariant mappingConflicts == MappingTable(conflictSets[..i] + [conflictSets[i] - pending])
          decreases pending
        {
          HasElement(pending);
          var j :| j in pending;
          ConflictTableExtend(conflictSets[..i], conflictSets[i] - pending, j);
          MappingTableExtend(conflictSets[..i], conflictSets[i] - pending, j);
          conflictMappings := Add(conflictMappings, i, j);
          mappingConflicts := Add(mappingConflicts, j, i);
          assert (conflictSets[i] - pending) + {j} == conflictSets[i] - (pending - {j});
          pending := pending - {j};
        }
        assert conflictSets[i] - pending == conflictSets[i];
        assert conflictSets[..i] + [conflictSets[i]] == conflictSets[..i + 1];
        i := i + 1;
      }
      assert conflictSets[..i] == conflictSets;
      InitialTablesConsistent(conflictSets, |toRepair|);
    }

    /** Retires mapping `m`: every conflict set containing it is dissolved,
        and struck from the entries of its other members. */
    method Remove(m: int)
      requires Valid() && m in mappingConflicts
      modifies this
      ensures Valid()
      ensures toRepair == old(toRepair) && conflictSets == old(conflictSets) && correct == old(correct)
      ensures conflictMappings == old(conflictMappings) - old(mappingConflicts[m])
      ensures mappingConflicts == Dissolve(old(mappingConflicts), old(mappingConflicts[m]))
      ensures m !in mappingConflicts
      ensures mappingConflicts.Keys <= old(mappingConflicts).Keys
      ensures forall i :: i in old(conflictMappings) ==> (i in conflictMappings <==> m !in old(conflictMappings)[i])
    {
      ghost var cm0, mc0 := conflictMappings, mappingConflicts;
      var conflicts := mappingConflicts[m];
      var pending := conflicts;
      DissolveNothing(mc0);
      assert conflicts - pending == {};
      while pending != {}
        invariant pending <= conflicts
        invariant toRepair == old(toRepair) && conflictSets == old(conflictSets) && correct == old(correct)
        invariant conflictMappings == cm0 - (conflicts - pending)
        invariant mappingConflicts == Dissolve(mc0, conflicts - pending)
        decreases pending
      {
        HasElement(pending);
        var c :| c in pending;
        ghost var done := conflicts - pending;
        assert c in cm0 && m in cm0[c];
        var members := conflictMappings[c];
        StripAllMembers(cm0, mc0, done, c);
        DetachConflict(c, members);
        conflictMappings := conflictMappings - {c};
        pending := pending - {c};
        assert conflicts - pending == done + {c};
      }
      RetireKeepsConsistent(cm0, mc0, m);
      mappingConflicts := mappingConflicts - {m};
    }

    /** The inner loop of `Remove`: strikes conflict set `c` from the entry of
        each of its members, deleting an entry that holds `c` alone. */
    method DetachConflict(c: int, members: set<int>)
      requires forall j :: j in members ==> j in mappingConflicts && c in mappingConflicts[j]
      modifies this
      ensures toRepair == old(toRepair) && conflictSets == old(conflictSets) && correct == old(correct)
      ensures conflictMappings == old(conflictMappings)
      ensures mappingConflicts == Strip(old(mappingConflicts), c, members)
    {
      var rest := members;
      StripNothing(mappingConflicts, c);
      while rest != {}
        invariant rest <= members
        invariant toRepair == old(toRepair) && conflictSets == old(conflictSets) && correct == old(correct)
        invariant conflictMappings == old(conflictMappings)
        invariant mappingConflicts == Strip(old(mappingConflicts), c, members - rest)
        decreases rest
      {
        HasElement(rest);
        var j :| j in rest;
        StripStep(old(mappingConflicts), c, members - rest, j);
        if |mappingConflicts[j]| == 1 {
          mappingConflicts := mappingConflicts - {j};
        } else {
          mappingConflicts := mappingConflicts[j := mappingConflicts[j] - {c}];
        }
        assert (members - rest) + {j} == members - (rest - {j});
        rest := rest - {j};
      }
    }

    /** The next mapping to put to the oracle: among the unconfirmed mappings
        in some live conflict set, one in the most conflict sets and, among
        those, one of least similarity; -1 when every such mapping is confirmed. */
    method GetWorstMapping() returns (worst: int)
      requires Valid()
      ensures worst == -1 <==> mappingConflicts.Keys <= correct
      ensures worst != -1 ==> worst in mappingConflicts && worst !in correct
      ensures worst != -1 ==> forall k :: k in mappingConflicts && k !in correct ==>
                |mappingConflicts[k]| <= |mappingConflicts[worst]|
      ensures worst != -1 ==> forall k ::
                (k in mappingConflicts && k !in correct && |mappingConflicts[k]| == |mappingConflicts[worst]|) ==>
                toRepair[worst].similarity <= toRepair[k].similarity
    {
      worst := -1;
      var maxCard := 0;
      var keys := mappingConflicts.Keys;
      while keys != {}
        invariant keys <= mappingConflicts.Keys
        invariant worst == -1 ==> maxCard == 0 && mappingConflicts.Keys - keys <= correct
        invariant worst != -1 ==> worst in mappingConflicts - keys && worst !in correct
        invariant worst != -1 ==> maxCard == |mappingConflicts[worst]| > 0
        invariant worst != -1 ==> forall k :: k in mappingConflicts.Keys - keys && k !in correct ==>
                    |mappingConflicts[k]| < maxCard ||
                    (|mappingConflicts[k]| == maxCard && toRepair[worst].similarity <= toRepair[k].similarity)
        decreases keys
      {
        HasElement(keys);
        var i :| i in keys;
        keys := keys - {i};
        if i !in correct {
          var card := |mappingConflicts[i]|;
          if card > maxCard || (card == maxCard && toRepair[i].similarity < toRepair[worst].similarity) {
            maxCard := card;
            worst := i;
          }
        }
      }
    }

    /** Puts mapping `w` to the oracle: a confirmed mapping joins `correct`,
        a rejected one joins the removal set and is retired from the index. */
    method Adjudicate(w: int, oracle: Oracle, toRemove: set<int>) returns (removed: set<int>)
      requires Valid() && w in mappingConflicts && w !in correct
      modifies this
      ensures Valid()
      ensures toRepair == old(toRepair) && conflictSets == old(conflictSets)
      ensures Accepts(oracle, toRepair[w]) ==>
                && correct == old(correct) + {w} && removed == toRemove
                && conflictMappings == old(conflictMappings) && mappingConflicts == old(mappingConflicts)
      ensures !Accepts(oracle, toRepair[w]) ==>
                && correct == old(correct) && removed == toRemove + {w}
                && conflictMappings == old(conflictMappings) - old(mappingConflicts[w])
                && mappingConflicts == Dissolve(old(mappingConflicts), old(mappingConflicts[w]))
                && mappingConflicts.Keys <= old(mappingConflicts).Keys - {w}
      ensures mappingConflicts.Keys - correct < old(mappingConflicts.Keys - correct)
      ensures |mappingConflicts.Keys - correct| < old(|mappingConflicts.Keys - correct|)
    {
      ghost var open := mappingConflicts.Keys - correct;
      assert w in open;
      if oracle(toRepair[w].sourceId, toRepair[w].targetId, toRepair[w].relationship) {
        correct := correct + {w};
        removed := toRemove;
        assert mappingConflicts.Keys - correct == open - {w};
      } else {
        removed := toRemove + {w};
        Remove(w);
        assert mappingConflicts.Keys - correct <= open - {w};
      }
      ProperSubsetSmaller(mappingConflicts.Keys - correct, open);
    }

    /** One round of the repair loop on the mapping `w` the selection returned:
        `w` is adjudicated, the loop invariant is kept with `w` appended to the
        queries, and the unconfirmed listed mappings strictly shrink. */
    method Round(w: int, oracle: Oracle, toRemove: set<int>, ghost test: StopTest, ghost s0: Snapshot, ghost asked: seq<int>)
      returns (removed: set<int>, ghost asked': seq<int>)
      requires Valid()
      requires Progress(toRepair, oracle, test, s0, Snapshot(conflictMappings, mappingConflicts, correct, toRemove), asked)
      requires Continues(test, Snapshot(conflictMappings, mappingConflicts, correct, toRemove))
      requires Worst(toRepair, Snapshot(conflictMappings, mappingConflicts, correct, toRemove), w)
      modifies this
      ensures Valid()
      ensures toRepair == old(toRepair) && conflictSets == old(conflictSets)
      ensures asked' == asked + [w]
      ensures Progress(toRepair, oracle, test, s0, Snapshot(conflictMappings, mappingConflicts, correct, removed), asked')
      ensures mappingConflicts.Keys - correct < old(mappingConflicts.Keys - correct)
    {
      ghost var s := Snapshot(conflictMappings, mappingConflicts, correct, toRemove);
      ProgressStep(toRepair, oracle, test, s0, s, asked, w);
      removed := Adjudicate(w, oracle, toRemove);
      assert Snapshot(conflictMappings, mappingConflicts, correct, removed) == Step(toRepair, oracle, s, w);
      asked' := asked + [w];
    }

    /** The repaired alignment: the alignment in its order, without the
        mappings in `toRemove`. */
    method Assemble(toRemove: set<int>) returns (repaired: seq<Mapping>)
      ensures repaired == Without(toRepair, toRemove)
      ensures (forall k :: k in toRemove ==> 0 <= k < |toRepair|) ==> |repaired| == |toRepair| - |toRemove|
    {
      repaired := [];
      var i := 0;
      while i < |toRepair|
        invariant 0 <= i <= |toRepair|
        invariant repaired == Without(toRepair[..i], toRemove)
      {
        assert toRepair[..i + 1][..i] == toRepair[..i];
        if i !in toRemove {
          repaired := repaired + [toRepair[i]];
        }
        i := i + 1;
      }
      assert toRepair[..i] == toRepair;
      if forall k :: k in toRemove ==> 0 <= k < |toRepair| {
        WithoutValidSize(toRepair, toRemove);
      }
    }

    /** The repair loop as written: it stops when no conflict set is live or
        when `correct` contains every live conflict-set index. Besides the
        outcome it yields the removal set and the order of the oracle's queries. */
    method Repair(a: seq<Mapping>, cs: seq<set<int>>, oracle: Oracle)
      returns (outcome: Outcome, toRemove: set<int>, ghost asked: seq<int>)
      requires IndicesBelow(cs, |a|)
      modifies this
      ensures toRepair == a && conflictSets == cs && Valid()
      ensures Progress(a, oracle, LiveSetIndices, Start(cs),
                       Snapshot(conflictMappings, mappingConflicts, correct, toRemove), asked)
      ensures |asked| <= |Members(cs)|
      ensures |cs| == 0 ==> outcome == Repaired(a) && asked == []
      ensures outcome.Repaired? ==>
                && outcome.alignment == Without(a, toRemove)
                && |outcome.alignment| == |a| - |toRemove|
                && (|conflictMappings| == 0 || conflictMappings.Keys <= correct)
      ensures outcome.IndexOutOfRange? ==>
                && outcome.index == -1
                && |conflictMappings| != 0
                && mappingConflicts.Keys <= correct
                && !(conflictMappings.Keys <= correct)
    {
      toRepair, conflictSets := a, cs;
      Init();
      ghost var s0 := Start(cs);
      ProgressStart(a, oracle, LiveSetIndices, cs);
      toRemove, asked := {}, [];
      if |conflictSets| == 0 {
        outcome := Repaired(a);
        WithoutNothing(a);
        AskedAtMostOnceEach(a, oracle, s0.cm, s0.mc, conflictMappings, mappingConflicts, correct, toRemove, asked);
        return;
      }
      if |conflictMappings| != 0 {
        HasElement(conflictMappings.Keys);
      }
      while |conflictMappings| > 0
        invariant Valid()
        invariant toRepair == a && conflictSets == cs
        invariant Progress(a, oracle, LiveSetIndices, s0, Snapshot(conflictMappings, mappingConflicts, correct, toRemove), asked)
        invariant |conflictMappings| != 0 ==> !(conflictMappings.Keys <= correct)
        decreases mappingConflicts.Keys - correct
      {
        var w := GetWorstMapping();
        if w == -1 {
          outcome := IndexOutOfRange(w);
          AskedAtMostOnceEach(a, oracle, s0.cm, s0.mc, conflictMappings, mappingConflicts, correct, toRemove, asked);
          return;
        }
        toRemove, asked := Round(w, oracle, toRemove, LiveSetIndices, s0, asked);
        if conflictMappings.Keys <= correct {
          break;
        }
      }
      var repaired := Assemble(toRemove);
      outcome := Repaired(repaired);
      AskedAtMostOnceEach(a, oracle, s0.cm, s0.mc, conflictMappings, mappingConflicts, correct, toRemove, asked);
    }

    /** The repair loop with the stopping test corrected: it stops when no
        conflict set is live or when every mapping still in a live conflict
        set is confirmed, so a mapping to ask about always exists. */
    method RepairFixed(a: seq<Mapping>, cs: seq<set<int>>, oracle: Oracle)
      returns (repaired: seq<Mapping>, toRemove: set<int>, ghost asked: seq<int>)
      requires IndicesBelow(cs, |a|)
      modifies this
      ensures toRepair == a && conflictSets == cs && Valid()
      ensures Progress(a, oracle, ListedMappings, Start(cs),
                       Snapshot(conflictMappings, mappingConflicts, correct, toRemove), asked)
      ensures |asked| <= |Members(cs)|
      ensures |cs| == 0 ==> repaired == a && asked == []
      ensures repaired == Without(a, toRemove) && |repaired| == |a| - |toRemove|
      ensures mappingConflicts.Keys <= correct
      ensures forall i :: i in conflictMappings ==> conflictMappings[i] <= correct
    {
      toRepair, conflictSets := a, cs;
      Init();
      ghost var s0 := Start(cs);
      ProgressStart(a, oracle, ListedMappings, cs);
      toRemove, asked := {}, [];
      LiveConflictHasMember(conflictMappings, mappingConflicts);
      if |conflictSets| == 0 {
        repaired := a;
        WithoutNothing(a);
        AskedAtMostOnceEach(a, oracle, s0.cm, s0.mc, conflictMappings, mappingConflicts, correct, toRemove, asked);
        return;
      }
      if |mappingConflicts| != 0 {
        HasElement(mappingConflicts.Keys);
      }
      while |conflictMappings| > 0
        invariant Valid()
        invariant toRepair == a && conflictSets == cs
        invariant Progress(a, oracle, ListedMappings, s0, Snapshot(conflictMappings, mappingConflicts, correct, toRemove), asked)
        invariant |conflictMappings| != 0 ==> !(mappingConflicts.Keys <= correct)
        decreases mappingConflicts.Keys - correct
      {
        var w := GetWorstMapping();
        toRemove, asked := Round(w, oracle, toRemove, ListedMappings, s0, asked);
        if mappingConflicts.Keys <= correct {
          break;
        }
      }
      LiveConflictHasMember(conflictMappings, mappingConflicts);
      ConfirmedCoverLiveSets(conflictMappings, mappingConflicts, correct);
      repaired := Assemble(toRemove);
      AskedAtMostOnceEach(a, oracle, s0.cm, s0.mc, conflictMappings, mappingConflicts, correct, toRemove, asked);
    }
  }

  /** The tables built from the single conflict set {1, 2}. */
  lemma LowPairTables(cs: seq<set<int>>)
    requires cs == [{1, 2}]
    ensures Start(cs) == LowPairState({})
  {
    InitialTablesConsistent(cs, 3);
    assert 1 in cs[0] && 2 in cs[0];
    var mc := MappingTable(cs);
    assert Members(cs) == {1, 2};
    assert mc.Keys == {1, 2} && mc[1] == {0} && mc[2] == {0};
    assert mc == map[1 := {0}, 2 := {0}];
  }

  /** The three states of a run on the conflict set {1, 2} that confirms
      what it asks: nothing confirmed, mapping 1 confirmed, both confirmed. */
  ghost function LowPairState(correct: set<int>): Snapshot
  {
    Snapshot(map[0 := {1, 2}], map[1 := {0}, 2 := {0}], correct, {})
  }

  /** From the start of that run mapping 1, the less similar, is the only
      worst choice, and confirming it leaves the tables as they were. */
  lemma LowPairFirst(a: seq<Mapping>, oracle: Oracle, v: int)
    requires |a| == 3 && a[1].similarity < a[2].similarity && Accepts(oracle, a[1])
    requires Worst(a, LowPairState({}), v)
    ensures v == 1 && Step(a, oracle, LowPairState({}), v) == LowPairState({1})
  {
    var s := LowPairState({});
    forall k | k in s.mc && k !in s.correct && k != 1
      ensures |s.mc[k]| == |s.mc[1]| && 0 <= k < |a| && a[1].similarity < a[k].similarity
    {
      assert k == 2;
    }
    WorstIs(a, s, 1, v);
  }

  /** Once 1 is confirmed, 2 is the only worst choice. */
  lemma LowPairSecond(a: seq<Mapping>, oracle: Oracle, v: int)
    requires |a| == 3 && Accepts(oracle, a[2])
    requires Worst(a, LowPairState({1}), v)
    ensures v == 2 && Step(a, oracle, LowPairState({1}), v) == LowPairState({1, 2})
  {
    WorstIs(a, LowPairState({1}), 2, v);
  }

  /** Once both are confirmed, no mapping is left to ask about. */
  lemma LowPairDone(a: seq<Mapping>, v: int)
    ensures !Worst(a, LowPairState({1, 2}), v)
  {
  }

  /** The first two queries of a greedy run on the conflict set {1, 2} with both
      mappings confirmed are 1 and then 2, whichever stopping test is used. */
  lemma LowPairPrefix(a: seq<Mapping>, oracle: Oracle, test: StopTest, asked: seq<int>)
    requires |a| == 3 && a[1].similarity < a[2].similarity && Accepts(oracle, a[1]) && Accepts(oracle, a[2])
    requires Greedy(a, oracle, test, LowPairState({}), asked)
    ensures |asked| >= 1 ==> asked[0] == 1 && Replay(a, oracle, LowPairState({}), asked[..1]) == LowPairState({1})
    ensures |asked| >= 2 ==> asked[1] == 2 && Replay(a, oracle, LowPairState({}), asked[..2]) == LowPairState({1, 2})
  {
    if |asked| >= 1 {
      GreedyAt(a, oracle, test, LowPairState({}), asked, 0);
      assert asked[..0] == [];
      LowPairFirst(a, oracle, asked[0]);
    }
    if |asked| >= 2 {
      GreedyAt(a, oracle, test, LowPairState({}), asked, 1);
      LowPairSecond(a, oracle, asked[1]);
    }
  }

  /** A greedy run on the conflict set {1, 2} with both mappings confirmed,
      under either stopping test: mapping 1 (the less similar) is asked
      first, then mapping 2, and no third query is possible because every
      listed mapping is then confirmed. Nothing is ever removed, so the
      tables never change and the conflict-set index 0 is never confirmed. */
  lemma LowPairRun(a: seq<Mapping>, oracle: Oracle, test: StopTest, s: Snapshot, asked: seq<int>)
    requires |a| == 3 && a[1].similarity < a[2].similarity && Accepts(oracle, a[1]) && Accepts(oracle, a[2])
    requires Greedy(a, oracle, test, LowPairState({}), asked) && s == Replay(a, oracle, LowPairState({}), asked)
    ensures asked == [] || asked == [1] || asked == [1, 2]
    ensures s == LowPairState(if asked == [] then {} else if asked == [1] then {1} else {1, 2})
    ensures |s.cm| == 1 && !(s.cm.Keys <= s.correct) && s.removed == {}
    ensures s.mc.Keys <= s.correct <==> asked == [1, 2]
  {
    LowPairPrefix(a, oracle, test, asked);
    if |asked| > 2 {
      GreedyAt(a, oracle, test, LowPairState({}), asked, 2);
      LowPairDone(a, asked[2]);
    } else if |asked| == 2 {
      assert asked == asked[..2] && asked[..2] == [1, 2];
    } else if |asked| == 1 {
      assert asked == asked[..1];
    }
  }

  /** The loop as written fails on a single conflict set {1, 2} when the
      oracle confirms every mapping: confirming 1 and then 2 never makes
      `correct` contain the conflict-set index 0, so the third selection finds
      no candidate and reads the alignment at position -1. */
  method AllConfirmedReadsPositionMinusOne() returns (outcome: Outcome, ghost asked: seq<int>)
    ensures outcome == IndexOutOfRange(-1)
    ensures asked == [1, 2]
  {
    var a := [Mapping(0, 10, Equivalence, 0.9), Mapping(1, 11, Equivalence, 0.6), Mapping(2, 12, Equivalence, 0.8)];
    var cs := [{1, 2}];
    var oracle := (s: int, t: int, r: Relation) => true;
    var repairer := new InteractiveRepairer();
    var toRemove;
    outcome, toRemove, asked := repairer.Repair(a, cs, oracle);
    LowPairTables(cs);
    LowPairRun(a, oracle, LiveSetIndices, Snapshot(repairer.conflictMappings, repairer.mappingConflicts, repairer.correct, toRemove), asked);
  }

  /** With the corrected stopping test the same input asks about mapping 1
      and then mapping 2, keeps both, and returns the alignment unchanged. */
  method AllConfirmedAsksEveryMember() returns (repaired: seq<Mapping>, ghost asked: seq<int>)
    ensures repaired == [Mapping(0, 10, Equivalence, 0.9), Mapping(1, 11, Equivalence, 0.6), Mapping(2, 12, Equivalence, 0.8)]
    ensures asked == [1, 2]
  {
    var a := [Mapping(0, 10, Equivalence, 0.9), Mapping(1, 11, Equivalence, 0.6), Mapping(2, 12, Equivalence, 0.8)];
    var cs := [{1, 2}];
    var oracle := (s: int, t: int, r: Relation) => true;
    var repairer := new InteractiveRepairer();
    var toRemove;
    repaired, toRemove, asked := repairer.RepairFixed(a, cs, oracle);
    LowPairTables(cs);
    LowPairRun(a, oracle, ListedMappings, Snapshot(repairer.conflictMappings, repairer.mappingConflicts, repairer.correct, toRemove), asked);
    WithoutNothing(a);
  }

  /** The tables of the conflict sets {0, 1} and {1, 2, 3}: mapping 1 is in
      both sets, and 1 is also the index of the second set. */
  lemma SharedMemberTables(cs: seq<set<int>>)
    requires cs == [{0, 1}, {1, 2, 3}]
    ensures Start(cs) == Snapshot(map[0 := {0, 1}, 1 := {1, 2, 3}], map[0 := {0}, 1 := {0, 1}, 2 := {1}, 3 := {1}], {}, {})
  {
    InitialTablesConsistent(cs, 4);
    assert 0 in cs[0] && 1 in cs[0] && 1 in cs[1] && 2 in cs[1] && 3 in cs[1];
    var mc := MappingTable(cs);
    assert Members(cs) == {0, 1, 2, 3};
    assert mc[0] == {0} && mc[1] == {0, 1} && mc[2] == {1} && mc[3] == {1};
    assert mc == map[0 := {0}, 1 := {0, 1}, 2 := {1}, 3 := {1}];
  }

  /** From the start of `SharedMemberRejected` mapping 1, the only mapping in
      two conflict sets, is the only worst choice, and rejecting it dissolves
      both sets. */
  lemma SharedMemberFirst(a: seq<Mapping>, oracle: Oracle, s0: Snapshot, v: int)
    requires |a| == 4 && !Accepts(oracle, a[1])
    requires s0 == Snapshot(map[0 := {0, 1}, 1 := {1, 2, 3}], map[0 := {0}, 1 := {0, 1}, 2 := {1}, 3 := {1}], {}, {})
    requires Worst(a, s0, v)
    ensures v == 1 && Step(a, oracle, s0, v) == Snapshot(map[], map[], {}, {1})
  {
    forall k | k in s0.mc && k !in s0.correct && k != 1 ensures |s0.mc[k]| < |s0.mc[1]| {
      assert k in {0, 2, 3};
    }
    WorstIs(a, s0, 1, v);
    assert s0.mc[1] == s0.cm.Keys;
  }

  /** The run of `SharedMemberRejected`: mapping 1 is the one query, and the
      loop stops once rejecting it has dissolved both conflict sets. */
  lemma SharedMemberRun(a: seq<Mapping>, oracle: Oracle, s0: Snapshot, s: Snapshot, asked: seq<int>)
    requires |a| == 4 && !Accepts(oracle, a[1])
    requires s0 == Snapshot(map[0 := {0, 1}, 1 := {1, 2, 3}], map[0 := {0}, 1 := {0, 1}, 2 := {1}, 3 := {1}], {}, {})
    requires Greedy(a, oracle, LiveSetIndices, s0, asked) && s == Replay(a, oracle, s0, asked)
    requires |s.cm| == 0 || s.cm.Keys <= s.correct || s.mc.Keys <= s.correct
    ensures asked == [1] && s == Snapshot(map[], map[], {}, {1})
  {
    if asked == [] {
      assert false;
    }
    GreedyAt(a, oracle, LiveSetIndices, s0, asked, 0);
    assert asked[..0] == [];
    SharedMemberFirst(a, oracle, s0, asked[0]);
    GreedyStopsAt(a, oracle, LiveSetIndices, s0, asked, 1);
    assert asked == asked[..1];
  }

  /** Dropping position 1 of a four-mapping alignment keeps positions 0, 2 and 3. */
  lemma WithoutSecond(a: seq<Mapping>)
    requires |a| == 4
    ensures Without(a, {1}) == [a[0], a[2], a[3]]
  {
    assert a[..1][..0] == [] && a[..2][..1] == a[..1] && a[..3][..2] == a[..2] && a[..4] == a;
    assert Without(a[..1], {1}) == [a[0]];
    assert Without(a[..2], {1}) == [a[0]];
    assert Without(a[..3], {1}) == [a[0], a[2]];
  }

  /** What the loop as written returns on the input of `SharedMemberRejected`,
      for any four mappings and any oracle that rejects mapping 1. */
  lemma SharedMemberOutcome(a: seq<Mapping>, oracle: Oracle, cs: seq<set<int>>, s: Snapshot, asked: seq<int>, outcome: Outcome)
    requires |a| == 4 && !Accepts(oracle, a[1]) && cs == [{0, 1}, {1, 2, 3}]
    requires Progress(a, oracle, LiveSetIndices, Start(cs), s, asked)
    requires outcome.Repaired? ==> outcome.alignment == Without(a, s.removed) && (|s.cm| == 0 || s.cm.Keys <= s.correct)
    requires outcome.IndexOutOfRange? ==> |s.cm| != 0 && s.mc.Keys <= s.correct
    ensures asked == [1] && outcome == Repaired([a[0], a[2], a[3]])
  {
    SharedMemberTables(cs);
    SharedMemberRun(a, oracle, Start(cs), s, asked);
    WithoutSecond(a);
  }

  /** Two conflict sets {0, 1} and {1, 2, 3}; the oracle rejects mapping 1
      only. Mapping 1 is the one query, and the run ends with it removed and
      the other three kept in order. */
  method SharedMemberRejected() returns (outcome: Outcome, ghost asked: seq<int>)
    ensures outcome == Repaired([Mapping(0, 10, Equivalence, 0.9), Mapping(2, 12, Equivalence, 0.8), Mapping(3, 13, Equivalence, 0.5)])
    ensures asked == [1]
  {
    var a := [Mapping(0, 10, Equivalence, 0.9), Mapping(1, 11, Equivalence, 0.6), Mapping(2, 12, Equivalence, 0.8), Mapping(3, 13, Equivalence, 0.5)];
    var cs := [{0, 1}, {1, 2, 3}];
    var oracle := (s: int, t: int, r: Relation) => s != 1;
    var repairer := new InteractiveRepairer();
    var toRemove;
    outcome, toRemove, asked := repairer.Repair(a, cs, oracle);
    SharedMemberOutcome(a, oracle, cs, Snapshot(repairer.conflictMappings, repairer.mappingConflicts, repairer.correct, toRemove),
                        asked, outcome);
  }

  /** The tables built from the single conflict set {0, 1}. */
  lemma PairTables(cs: seq<set<int>>)
    requires cs == [{0, 1}]
    ensures Start(cs) == Snapshot(map[0 := {0, 1}], map[0 := {0}, 1 := {0}], {}, {})
  {
    InitialTablesConsistent(cs, 2);
    assert 0 in cs[0] && 1 in cs[0];
    var mc := MappingTable(cs);
    assert Members(cs) == {0, 1};
    assert mc.Keys == {0, 1} && mc[0] == {0} && mc[1] == {0};
    assert mc == map[0 := {0}, 1 := {0}];
  }

  /** From the start of `ConfirmedZeroStopsLoop` mapping 0, the less similar
      of the two, is the only worst choice, and confirming it leaves the
      tables as they were. */
  lemma ConfirmedZeroFirst(a: seq<Mapping>, oracle: Oracle, s0: Snapshot, v: int)
    requires |a| == 2 && a[0].similarity < a[1].similarity && Accepts(oracle, a[0])
    requires s0 == Snapshot(map[0 := {0, 1}], map[0 := {0}, 1 := {0}], {}, {})
    requires Worst(a, s0, v)
    ensures v == 0 && Step(a, oracle, s0, v) == Snapshot(s0.cm, s0.mc, {0}, {})
  {
    forall k | k in s0.mc && k !in s0.correct && k != 0
      ensures |s0.mc[k]| == |s0.mc[0]| && 0 <= k < |a| && a[0].similarity < a[k].similarity
    {
      assert k == 1;
    }
    WorstIs(a, s0, 0, v);
  }

  /** The run of `ConfirmedZeroStopsLoop`: once mapping 0 is confirmed,
      `correct` contains the only live conflict-set index 0, so the loop as
      written stops after that one query with nothing removed. */
  lemma ConfirmedZeroRun(a: seq<Mapping>, oracle: Oracle, s0: Snapshot, s: Snapshot, asked: seq<int>)
    requires |a| == 2 && a[0].similarity < a[1].similarity && Accepts(oracle, a[0])
    requires s0 == Snapshot(map[0 := {0, 1}], map[0 := {0}, 1 := {0}], {}, {})
    requires Greedy(a, oracle, LiveSetIndices, s0, asked) && s == Replay(a, oracle, s0, asked)
    requires |s.cm| == 0 || s.cm.Keys <= s.correct || s.mc.Keys <= s.correct
    ensures asked == [0] && s == Snapshot(s0.cm, s0.mc, {0}, {})
  {
    if asked == [] {
      assert false;
    }
    GreedyAt(a, oracle, LiveSetIndices, s0, asked, 0);
    assert asked[..0] == [];
    ConfirmedZeroFirst(a, oracle, s0, asked[0]);
    GreedyStopsAt(a, oracle, LiveSetIndices, s0, asked, 1);
    assert asked == asked[..1];
  }

  /** One conflict set {0, 1} and an oracle that accepts everything: mapping 0
      is asked first, and once it is confirmed `correct` contains the only live
      conflict-set index 0, so the loop as written stops after that one query
      and returns the alignment unchanged. */
  method ConfirmedZeroStopsLoop() returns (outcome: Outcome, ghost asked: seq<int>)
    ensures outcome == Repaired([Mapping(0, 10, Equivalence, 0.6), Mapping(1, 11, Equivalence, 0.9)])
    ensures asked == [0]
  {
    var a := [Mapping(0, 10, Equivalence, 0.6), Mapping(1, 11, Equivalence, 0.9)];
    var cs := [{0, 1}];
    var oracle := (s: int, t: int, r: Relation) => true;
    var repairer := new InteractiveRepairer();
    var toRemove;
    outcome, toRemove, asked := repairer.Repair(a, cs, oracle);
    PairTables(cs);
    ConfirmedZeroRun(a, oracle, Start(cs), Snapshot(repairer.conflictMappings, repairer.mappingConflicts, repairer.correct, toRemove), asked);
    WithoutNothing(a);
  }
}
