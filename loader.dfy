/** The catalog helpers the home screen calls: `loadLocalExcuse`, `hasLocalExcuses`,
    `getExcuseStats`. */
module ExcuseLoader {
  import opened Wrappers
  import opened ExcuseCatalog

  /** A local excuse as the screen receives it, with its made-up usage count. */
  datatype LocalExcuse = LocalExcuse(excuse: string, believabilityRating: int, usageCount: nat)

  /** The catalog summary `getExcuseStats` returns. */
  datatype ExcuseStats = ExcuseStats(totalSituations: nat, totalExcuses: nat, situations: seq<string>)

  /** `situation in excuseDatabase && excuseDatabase[situation].length > 0`. */
  predicate HasLocalExcuses(c: Catalog, situation: string) {
    situation in c.excuses && |c.excuses[situation]| > 0
  }

  /** `loadLocalExcuse`: the selector's result with a usage count `floor(u * 1000)` added, where
      `r` and `u` are the two `Math.random()` draws. Tone and length are always passed on. */
  function LoadLocalExcuse(c: Catalog, situation: string, tone: string, length: string, r: real, u: real)
    : (res: Option<LocalExcuse>)
    requires 0.0 <= r < 1.0 && 0.0 <= u < 1.0
    ensures res.None? <==> GetRandomExcuse(c, situation, Some(tone), Some(length), r).None?
    ensures res.Some? ==>
              var picked := GetRandomExcuse(c, situation, Some(tone), Some(length), r).value;
              res.value.excuse == picked.excuse &&
              res.value.believabilityRating == picked.believabilityRating
    ensures res.Some? ==> res.value.usageCount < 1000
  {
    match GetRandomExcuse(c, situation, Some(tone), Some(length), r)
    case None => None
    case Some(picked) => Some(LocalExcuse(picked.excuse, picked.believabilityRating, RandomIndex(u, 1000)))
  }

  /** Loading locally fails exactly when the situation has no local excuses, whatever the tone,
      length and draws. */
  lemma LoadFailsIffNoLocalExcuses(c: Catalog, situation: string, tone: string, length: string, r: real, u: real)
    requires 0.0 <= r < 1.0 && 0.0 <= u < 1.0
    ensures LoadLocalExcuse(c, situation, tone, length, r, u).None? <==> !HasLocalExcuses(c, situation)
    ensures GetRandomExcuse(c, situation, Some(tone), Some(length), r).None? <==> !HasLocalExcuses(c, situation)
  {
  }

  /** The `reduce` over the key list: `acc` plus the lengths of the lists of `keys`, from the left. */
  function SumLengths(excuses: map<string, seq<ExcuseRecord>>, keys: seq<string>, acc: nat): nat
    requires forall i :: 0 <= i < |keys| ==> keys[i] in excuses
  {
    if keys == [] then acc else SumLengths(excuses, keys[1..], acc + |excuses[keys[0]]|)
  }

  /** `getExcuseStats`. */
  function GetExcuseStats(c: Catalog): (st: ExcuseStats)
    requires Wf(c)
    ensures st.situations == GetAvailableSituations(c)
    ensures st.totalSituations == |st.situations| == |c.excuses.Keys|
    ensures st.totalExcuses == SumLengths(c.excuses, c.situations, 0)
    ensures forall s :: s in c.excuses ==> |c.excuses[s]| <= st.totalExcuses
    ensures st.totalExcuses == 0 <==> forall s :: s in c.excuses ==> !HasLocalExcuses(c, s)
  {
    DistinctKeysCount(c.situations, c.excuses.Keys);
    SumBoundsEach(c.excuses, c.situations, 0);
    SumZeroIff(c.excuses, c.situations, 0);
    ExcuseStats(|c.situations|, SumLengths(c.excuses, c.situations, 0), c.situations)
  }

  /** Each listed key's list length, and the starting value, are at most the sum. */
  lemma {:induction false} SumBoundsEach(excuses: map<string, seq<ExcuseRecord>>, keys: seq<string>, acc: nat)
    requires forall i :: 0 <= i < |keys| ==> keys[i] in excuses
    ensures acc <= SumLengths(excuses, keys, acc)
    ensures forall i :: 0 <= i < |keys| ==> |excuses[keys[i]]| <= SumLengths(excuses, keys, acc)
  {
    if keys != [] {
      SumBoundsEach(excuses, keys[1..], acc + |excuses[keys[0]]|);
      forall i | 1 <= i < |keys| ensures |excuses[keys[i]]| <= SumLengths(excuses, keys, acc) {
        assert keys[i] == keys[1..][i - 1];
      }
    }
  }

  /** The sum is zero exactly when the start is zero and every listed key's list is empty. */
  lemma {:induction false} SumZeroIff(excuses: map<string, seq<ExcuseRecord>>, keys: seq<string>, acc: nat)
    requires forall i :: 0 <= i < |keys| ==> keys[i] in excuses
    ensures SumLengths(excuses, keys, acc) == 0 <==>
              acc == 0 && forall i :: 0 <= i < |keys| ==> |excuses[keys[i]]| == 0
  {
    if keys != [] {
      SumZeroIff(excuses, keys[1..], acc + |excuses[keys[0]]|);
      if acc == 0 && forall i :: 0 <= i < |keys| ==> |excuses[keys[i]]| == 0 {
        assert forall i :: 0 <= i < |keys[1..]| ==> |excuses[keys[1..][i]]| == 0 by {
          forall i | 0 <= i < |keys[1..]| ensures |excuses[keys[1..][i]]| == 0 {
            assert keys[1..][i] == keys[i + 1];
          }
        }
      }
      if SumLengths(excuses, keys, acc) == 0 {
        forall i | 0 <= i < |keys| ensures |excuses[keys[i]]| == 0 {
          if i > 0 { assert keys[i] == keys[1..][i - 1]; }
        }
      }
    }
  }

  /** The running total is the start value plus the total from zero. */
  lemma {:induction false} SumLengthsFrom(excuses: map<string, seq<ExcuseRecord>>, keys: seq<string>, acc: nat)
    requires forall i :: 0 <= i < |keys| ==> keys[i] in excuses
    ensures SumLengths(excuses, keys, acc) == acc + SumLengths(excuses, keys, 0)
  {
    if keys != [] {
      var n := |excuses[keys[0]]|;
      SumLengthsFrom(excuses, keys[1..], acc + n);
      SumLengthsFrom(excuses, keys[1..], n);
    }
  }

  /** The sum is additive: one more key adds its list's length. */
  lemma {:induction false} SumLengthsAppend(excuses: map<string, seq<ExcuseRecord>>, keys: seq<string>, k: string, acc: nat)
    requires forall i :: 0 <= i < |keys| ==> keys[i] in excuses
    requires k in excuses
    ensures SumLengths(excuses, keys + [k], acc) == SumLengths(excuses, keys, acc) + |excuses[k]|
  {
    if keys == [] {
      assert keys + [k] == [k];
      assert [k][1..] == [];
    } else {
      assert (keys + [k])[1..] == keys[1..] + [k];
      SumLengthsAppend(excuses, keys[1..], k, acc + |excuses[keys[0]]|);
    }
  }

  /** For the three-file database: three situations, and as many excuses as the three files hold. */
  lemma DatabaseStats(lateToWork: seq<ExcuseRecord>, missedDeadline: seq<ExcuseRecord>,
                      forgotBirthday: seq<ExcuseRecord>)
    ensures var st := GetExcuseStats(ExcuseDatabase(lateToWork, missedDeadline, forgotBirthday));
            st.totalSituations == 3 &&
            st.totalExcuses == |lateToWork| + |missedDeadline| + |forgotBirthday| &&
            st.situations == ["Late to work", "Missed deadline", "Forgot birthday"]
  {
    var c := ExcuseDatabase(lateToWork, missedDeadline, forgotBirthday);
    var ks := c.situations;
    assert ks == [ks[0]] + [ks[1]] + [ks[2]];
    assert [ks[0]] + [ks[1]] == [ks[0]] + [ks[1]];
    SumLengthsAppend(c.excuses, [], ks[0], 0);
    SumLengthsAppend(c.excuses, [ks[0]], ks[1], 0);
    SumLengthsAppend(c.excuses, [ks[0]] + [ks[1]], ks[2], 0);
  }

  /** A list without repetitions has as many elements as the set it lists. */
  lemma {:induction false} DistinctKeysCount(keys: seq<string>, s: set<string>)
    requires forall i, j :: 0 <= i < j < |keys| ==> keys[i] != keys[j]
    requires forall k :: k in s <==> k in keys
    ensures |s| == |keys|
  {
    if keys != [] {
      var rest := s - {keys[0]};
      forall k ensures k in rest <==> k in keys[1..] {
        if k in keys[1..] {
          var j :| 0 <= j < |keys[1..]| && keys[1..][j] == k;
          assert keys[j + 1] == k;
        }
      }
      DistinctKeysCount(keys[1..], rest);
    }
  }
}
