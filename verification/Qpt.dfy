/** The quality-point table: fixed data keyed by (total-marks scale,
    obtained marks), built by three insert loops into a map, so that a
    later entry for a key already present replaces the earlier one. */
module Qpt {
  import opened Wrappers

  /** (total-marks scale, obtained marks), both `u8` in the engine. */
  type Key = (nat, nat)

  /** (obtained marks, quality point) as written in a table literal. */
  type Entry = (nat, real)

  // The three literals, one `+` per line of the source layout.

  const Qps60: seq<Entry> :=
    [(24, 3.0), (25, 3.5), (26, 4.0), (27, 4.5), (28, 5.0)] +
    [(29, 5.5), (30, 6.0), (31, 6.33), (32, 6.67), (33, 7.0)] +
    [(34, 7.33), (35, 7.67), (36, 8.0), (37, 8.33), (38, 8.67)] +
    [(39, 9.0), (40, 9.33), (41, 9.67), (42, 10.0), (43, 10.33)] +
    [(44, 10.67), (45, 11.0), (46, 11.33), (47, 11.67), (48, 12.0)] +
    [(49, 12.0), (50, 12.0), (51, 12.0), (52, 12.0), (53, 12.0)] +
    [(54, 12.0), (55, 12.0), (56, 12.0), (57, 12.0), (58, 12.0)] +
    [(59, 12.0), (60, 12.0)]

  const Qps40: seq<Entry> :=
    [(16, 2.0), (17, 2.5), (18, 3.0), (19, 3.5), (20, 4.0)] +
    [(21, 4.33), (22, 4.67), (23, 5.0), (24, 5.33), (25, 5.67)] +
    [(26, 6.0), (27, 6.33), (28, 6.67), (29, 7.0), (30, 7.33)] +
    [(31, 7.67), (32, 8.0), (33, 8.0), (34, 8.0), (35, 8.0)] +
    [(36, 8.0), (37, 8.0), (38, 8.0), (39, 8.0), (40, 8.0)]

  const Qps120: seq<Entry> :=
    [(48, 6.0), (49, 6.5), (50, 7.0), (51, 7.5), (52, 8.0), (53, 8.5), (54, 9.0), (55, 9.5), (56, 10.0), (57, 10.5)] +
    [(58, 11.0), (59, 11.5), (60, 12.0), (61, 12.5), (62, 13.0), (63, 13.17), (64, 13.34), (65, 13.67), (66, 14.0), (67, 14.5)] +
    [(68, 15.0), (69, 15.17), (70, 15.34), (71, 15.67), (72, 16.0), (73, 16.5), (74, 17.0), (75, 17.17), (76, 17.34), (77, 17.67)] +
    [(78, 18.0), (79, 18.5), (80, 19.0), (81, 19.17), (82, 19.34), (80, 19.67), (84, 20.0), (85, 20.5), (86, 21.0), (87, 21.17)] +
    [(88, 21.34), (89, 21.67), (90, 22.0), (91, 21.5), (92, 23.0), (93, 23.17), (94, 23.34), (95, 23.67), (96, 24.0)] +
    [(98, 24.0), (100, 24.0), (102, 24.0), (104, 24.0), (106, 24.0), (107, 24.0)] +
    [(108, 24.0), (110, 24.0), (112, 24.0), (114, 24.0), (116, 24.0)] +
    [(118, 24.0), (120, 24.0)]

  /** The quality point of the LAST entry for obtained marks `om`: what a
      map holds for that key after every entry has been inserted in order. */
  function LastMatch(entries: seq<Entry>, om: nat): Option<real>
    decreases |entries|
  {
    if entries == [] then None
    else if entries[|entries| - 1].0 == om then Some(entries[|entries| - 1].1)
    else LastMatch(entries[..|entries| - 1], om)
  }

  /** The table as a lookup: the 60-scale literal is inserted first, then
      the 40-scale one, then the 120-scale one; no other scale has entries. */
  function Lookup(key: Key): Option<real> {
    if key.0 == 60 then LastMatch(Qps60, key.1)
    else if key.0 == 40 then LastMatch(Qps40, key.1)
    else if key.0 == 120 then LastMatch(Qps120, key.1)
    else None
  }

  /** `HashMap::get`. */
  function Get(m: map<Key, real>, k: Key): Option<real> {
    if k in m then Some(m[k]) else None
  }

  /** A map that answers every key as the fixed table does. */
  ghost predicate IsTable(qpt: map<Key, real>) {
    forall k :: Get(qpt, k) == Lookup(k)
  }

  /** What the map answers for `k` once the first `n60`, `n40` and `n120`
      entries of the three literals have been inserted, in that order. */
  function Inserted(k: Key, n60: nat, n40: nat, n120: nat): Option<real>
    requires n60 <= |Qps60| && n40 <= |Qps40| && n120 <= |Qps120|
  {
    if k.0 == 60 then LastMatch(Qps60[..n60], k.1)
    else if k.0 == 40 then LastMatch(Qps40[..n40], k.1)
    else if k.0 == 120 then LastMatch(Qps120[..n120], k.1)
    else None
  }

  /** `build_qpt`: three loops of inserts. */
  method BuildQpt() returns (qpt: map<Key, real>)
    ensures IsTable(qpt)
  {
    qpt := map[];
    for i := 0 to |Qps60|
      invariant forall k :: Get(qpt, k) == Inserted(k, i, 0, 0)
    {
      ghost var before := qpt;
      qpt := qpt[(60, Qps60[i].0) := Qps60[i].1];
      assert Qps60[..i + 1][..i] == Qps60[..i];
      forall k ensures Get(qpt, k) == Inserted(k, i + 1, 0, 0) {
        assert Get(before, k) == Inserted(k, i, 0, 0);
      }
    }
    for i := 0 to |Qps40|
      invariant forall k :: Get(qpt, k) == Inserted(k, |Qps60|, i, 0)
    {
      ghost var before := qpt;
      qpt := qpt[(40, Qps40[i].0) := Qps40[i].1];
      assert Qps40[..i + 1][..i] == Qps40[..i];
      forall k ensures Get(qpt, k) == Inserted(k, |Qps60|, i + 1, 0) {
        assert Get(before, k) == Inserted(k, |Qps60|, i, 0);
      }
    }
    for i := 0 to |Qps120|
      invariant forall k :: Get(qpt, k) == Inserted(k, |Qps60|, |Qps40|, i)
    {
      ghost var before := qpt;
      qpt := qpt[(120, Qps120[i].0) := Qps120[i].1];
      assert Qps120[..i + 1][..i] == Qps120[..i];
      forall k ensures Get(qpt, k) == Inserted(k, |Qps60|, |Qps40|, i + 1) {
        assert Get(before, k) == Inserted(k, |Qps60|, |Qps40|, i);
      }
    }
    assert Qps60[..|Qps60|] == Qps60 && Qps40[..|Qps40|] == Qps40 && Qps120[..|Qps120|] == Qps120;
  }

  // ------------------------------------------------ last insert wins

  predicate IsLastFor(entries: seq<Entry>, om: nat, i: int) {
    0 <= i < |entries| && entries[i].0 == om
    && forall j :: i < j < |entries| ==> entries[j].0 != om
  }

  /** `LastMatch` finds a value exactly when some entry has the key. */
  lemma {:induction false} LastMatchFound(entries: seq<Entry>, om: nat)
    ensures LastMatch(entries, om).Some? <==> exists i :: 0 <= i < |entries| && entries[i].0 == om
    decreases |entries|
  {
    if entries != [] {
      var n := |entries| - 1;
      var init := entries[..n];
      LastMatchFound(init, om);
      if entries[n].0 != om {
        if i :| 0 <= i < |init| && init[i].0 == om {
          assert entries[i].0 == om;
        }
        if i :| 0 <= i < |entries| && entries[i].0 == om {
          assert init[i].0 == om;
        }
      }
    }
  }

  /** The value found is that of the last entry with the key. */
  lemma {:induction false} LastMatchIsLast(entries: seq<Entry>, om: nat, i: int)
    requires IsLastFor(entries, om, i)
    ensures LastMatch(entries, om) == Some(entries[i].1)
    decreases |entries|
  {
    var n := |entries| - 1;
    if i < n {
      assert IsLastFor(entries[..n], om, i);
      LastMatchIsLast(entries[..n], om, i);
    }
  }

  /** Whatever `LastMatch` finds is the value of some entry with the key. */
  lemma {:induction false} LastMatchFrom(entries: seq<Entry>, om: nat)
    requires LastMatch(entries, om).Some?
    ensures exists i :: 0 <= i < |entries| && entries[i] == (om, LastMatch(entries, om).value)
    decreases |entries|
  {
    var n := |entries| - 1;
    if entries[n].0 != om {
      LastMatchFrom(entries[..n], om);
      var i :| 0 <= i < n && entries[..n][i] == (om, LastMatch(entries, om).value);
      assert entries[i] == entries[..n][i];
    } else {
      assert entries[n] == (om, LastMatch(entries, om).value);
    }
  }

  /** The domain of the 120-scale literal: index `i` holds these marks. */
  function Marks120(i: nat): nat {
    if i <= 34 then 48 + i
    else if i == 35 then 80
    else if i <= 48 then 48 + i
    else if i <= 53 then 98 + 2 * (i - 49)
    else if i == 54 then 107
    else 108 + 2 * (i - 55)
  }

  /** Where the 120-scale marks `om` are written (its last occurrence). */
  function Index120(om: nat): int {
    if om == 80 then 35
    else if om <= 96 then om - 48
    else if om <= 106 then 49 + (om - 98) / 2
    else if om == 107 then 54
    else 55 + (om - 108) / 2
  }

  /** The shape of the 60-scale literal: consecutive marks from 24, and
      every quality point above zero and at most 12. */
  lemma Shape60()
    ensures |Qps60| == 37
    ensures forall i :: 0 <= i < |Qps60| ==> Qps60[i].0 == 24 + i && 0.0 < Qps60[i].1 <= 12.0
  {
  }

  /** The shape of the 40-scale literal: consecutive marks from 16, and
      every quality point above zero and at most 8. */
  lemma Shape40()
    ensures |Qps40| == 25
    ensures forall i :: 0 <= i < |Qps40| ==> Qps40[i].0 == 16 + i && 0.0 < Qps40[i].1 <= 8.0
  {
  }

  /** The shape of the 120-scale literal: the marks `Marks120` gives, and
      every quality point above zero and at most 24. */
  lemma Shape120()
    ensures |Qps120| == 62
    ensures forall i :: 0 <= i < |Qps120| ==> Qps120[i].0 == Marks120(i) && 0.0 < Qps120[i].1 <= 24.0
  {
    Marks120Low();
    Marks120High();
    Values120();
  }
  /** The first five lines of the 120-scale literal: consecutive marks from
      48, except the repeated 80 where 83 belongs. */
  lemma Marks120Low()
    ensures forall i :: 0 <= i < 49 ==> Qps120[i].0 == if i == 35 then 80 else 48 + i
  {
  }
  /** The last three lines of the 120-scale literal. */
  lemma Marks120High()
    ensures forall i :: 49 <= i < |Qps120| ==> Qps120[i].0 == Marks120(i)
  {
  }
  /** Every 120-scale quality point is above zero and at most 24. */
  lemma Values120()
    ensures forall i :: 0 <= i < |Qps120| ==> 0.0 < Qps120[i].1 <= 24.0
  {
  }

  /** The marks the 120-scale table misses between 48 and 120. */
  predicate Gap120(om: nat) {
    om == 83 || om == 97 || (99 <= om <= 119 && om % 2 == 1 && om != 107)
  }

  /** The keys the table holds. */
  predicate InTable(key: Key) {
    (key.0 == 60 && 24 <= key.1 <= 60)
    || (key.0 == 40 && 16 <= key.1 <= 40)
    || (key.0 == 120 && 48 <= key.1 <= 120 && !Gap120(key.1))
  }

  /** The largest quality point of each scale with table entries. */
  function ScaleTop(scale: nat): real {
    if scale == 40 then 8.0 else if scale == 60 then 12.0 else 24.0
  }

  /** The table hits exactly the keys `InTable` names, every scale-100 key
      (and every other scale) misses, and each value found is above zero and
      at most the top of its scale. */
  lemma LookupSpec(key: Key)
    ensures Lookup(key).Some? <==> InTable(key)
    ensures Lookup(key).Some? ==> 0.0 < Lookup(key).value <= ScaleTop(key.0)
  {
    if key.0 == 60 {
      LookupSpec60(key.1);
    } else if key.0 == 40 {
      LookupSpec40(key.1);
    } else if key.0 == 120 {
      LookupSpec120(key.1);
    }
  }

  lemma LookupSpec60(om: nat)
    ensures LastMatch(Qps60, om).Some? <==> 24 <= om <= 60
    ensures LastMatch(Qps60, om).Some? ==> 0.0 < LastMatch(Qps60, om).value <= 12.0
  {
    Shape60();
    LastMatchFound(Qps60, om);
    if 24 <= om <= 60 { assert Qps60[om - 24].0 == om; }
    if LastMatch(Qps60, om).Some? { LastMatchFrom(Qps60, om); }
  }

  lemma LookupSpec40(om: nat)
    ensures LastMatch(Qps40, om).Some? <==> 16 <= om <= 40
    ensures LastMatch(Qps40, om).Some? ==> 0.0 < LastMatch(Qps40, om).value <= 8.0
  {
    Shape40();
    LastMatchFound(Qps40, om);
    if 16 <= om <= 40 { assert Qps40[om - 16].0 == om; }
    if LastMatch(Qps40, om).Some? { LastMatchFrom(Qps40, om); }
  }

  lemma LookupSpec120(om: nat)
    ensures LastMatch(Qps120, om).Some? <==> 48 <= om <= 120 && !Gap120(om)
    ensures LastMatch(Qps120, om).Some? ==> 0.0 < LastMatch(Qps120, om).value <= 24.0
  {
    Shape120();
    LastMatchFound(Qps120, om);
    if 48 <= om <= 120 && !Gap120(om) { assert Qps120[Index120(om)].0 == om; }
    if LastMatch(Qps120, om).Some? {
      LastMatchFrom(Qps120, om);
      var i :| 0 <= i < |Qps120| && Qps120[i].0 == om;
      Marks120NotGap(i);
    }
  }

  /** Every mark the 120-scale literal writes lies in 48..120 outside the
      gaps. */
  lemma Marks120NotGap(i: nat)
    requires i < 62
    ensures 48 <= Marks120(i) <= 120 && !Gap120(Marks120(i))
  {
  }

  /** The key (120, 80) is written twice; the second insert, 19.67, is the
      one the table keeps, and the marks 83 that it evidently stands for
      are missing. */
  lemma DuplicateKeyLastWins()
    ensures Lookup((120, 80)) == Some(19.67)
    ensures Lookup((120, 83)) == None
  {
    Shape120();
    assert IsLastFor(Qps120, 80, 35);
    LastMatchIsLast(Qps120, 80, 35);
    LookupSpec((120, 83));
  }

  /** Where the 60-scale value for marks `om` stands in its literal. */
  lemma Lookup60(om: nat)
    requires 24 <= om <= 60
    ensures Lookup((60, om)) == Some(Qps60[om - 24].1)
  {
    Shape60();
    assert IsLastFor(Qps60, om, om - 24);
    LastMatchIsLast(Qps60, om, om - 24);
  }

  /** Where the 40-scale value for marks `om` stands in its literal. */
  lemma Lookup40(om: nat)
    requires 16 <= om <= 40
    ensures Lookup((40, om)) == Some(Qps40[om - 16].1)
  {
    Shape40();
    assert IsLastFor(Qps40, om, om - 16);
    LastMatchIsLast(Qps40, om, om - 16);
  }

  /** Where the 120-scale value for marks `om` stands in its literal. */
  lemma Lookup120(om: nat)
    requires 48 <= om <= 120 && !Gap120(om)
    ensures 0 <= Index120(om) < |Qps120|
    ensures Lookup((120, om)) == Some(Qps120[Index120(om)].1)
  {
    Shape120();
    assert IsLastFor(Qps120, om, Index120(om));
    LastMatchIsLast(Qps120, om, Index120(om));
  }
}
