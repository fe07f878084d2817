/** The pairing of confirmed and pending log files that both versions of
    `check_file_pairs_and_duplicates` perform: every stem of the listing is reported as a
    duplicate when it repeats an earlier stem, is appended to the group of its
    normalised key, and a group left with a single member names a file whose pair is
    missing. The two versions differ only in the key normalisation, which is a
    parameter here. */
module FilePairs {
  import opened Strings

  /** A key normalisation: what a stem is reduced to so that its pair file shares it. */
  type KeyFn = string -> string

  /** The stems that repeat an earlier stem, one entry per repeat, in listing order. */
  function Duplicates(stems: seq<string>): seq<string>
    decreases |stems|
  {
    if stems == [] then []
    else
      var init := stems[..|stems| - 1];
      var last := stems[|stems| - 1];
      Duplicates(init) + (if last in init then [last] else [])
  }

  /** The keys in the order their groups are created, that is, by first occurrence. */
  function KeyOrder(stems: seq<string>, key: KeyFn): seq<string>
    decreases |stems|
  {
    if stems == [] then []
    else
      var prev := KeyOrder(stems[..|stems| - 1], key);
      var k := key(stems[|stems| - 1]);
      prev + (if k in prev then [] else [k])
  }

  /** The members of group `k`: the stems whose key is `k`, in listing order. */
  function Group(stems: seq<string>, key: KeyFn, k: string): seq<string>
    decreases |stems|
  {
    if stems == [] then []
    else
      var last := stems[|stems| - 1];
      Group(stems[..|stems| - 1], key, k) + (if key(last) == k then [last] else [])
  }

  /** The `file_pairs` dictionary the listing loop builds. */
  function Pairs(stems: seq<string>, key: KeyFn): map<string, seq<string>>
    decreases |stems|
  {
    if stems == [] then map[]
    else
      var m := Pairs(stems[..|stems| - 1], key);
      var last := stems[|stems| - 1];
      var k := key(last);
      if k in m then m[k := m[k] + [last]] else m[k := [last]]
  }

  /** The sole members of the single-member groups among `keys`, in the order of `keys`. */
  function Singletons(stems: seq<string>, key: KeyFn, keys: seq<string>): seq<string>
    decreases |keys|
  {
    if keys == [] then []
    else
      var g := Group(stems, key, keys[|keys| - 1]);
      Singletons(stems, key, keys[..|keys| - 1]) + (if |g| == 1 then [g[0]] else [])
  }

  /** The `missing_pairs` list: one entry per single-member group, in creation order. */
  function MissingPairs(stems: seq<string>, key: KeyFn): seq<string> {
    Singletons(stems, key, KeyOrder(stems, key))
  }

  /** The sum of the sizes of the groups named by `keys`. */
  function GroupSizes(stems: seq<string>, key: KeyFn, keys: seq<string>): nat
    decreases |keys|
  {
    if keys == [] then 0
    else GroupSizes(stems, key, keys[..|keys| - 1]) + |Group(stems, key, keys[|keys| - 1])|
  }

  lemma PrefixStep(stems: seq<string>, j: nat)
    requires j < |stems|
    ensures stems[..j + 1][..j] == stems[..j] && stems[..j + 1][j] == stems[j]
  {
  }

  /** `check_file_pairs_and_duplicates`, given the stems of the listing in glob order. The
      dictionary's key order is returned beside it, as Python's dict keeps it. */
  method CheckFilePairsAndDuplicates(stems: seq<string>, key: KeyFn)
    returns (filePairs: map<string, seq<string>>, pairOrder: seq<string>,
             duplicates: seq<string>, missingPairs: seq<string>)
    ensures filePairs == Pairs(stems, key)
    ensures pairOrder == KeyOrder(stems, key)
    ensures duplicates == Duplicates(stems)
    ensures missingPairs == MissingPairs(stems, key)
  {
    filePairs := map[];
    pairOrder := [];
    var fileNames: set<string> := {};
    duplicates := [];
    var j := 0;
    while j < |stems|
      invariant 0 <= j <= |stems|
      invariant forall x :: x in fileNames <==> x in stems[..j]
      invariant duplicates == Duplicates(stems[..j])
      invariant pairOrder == KeyOrder(stems[..j], key)
      invariant filePairs == Pairs(stems[..j], key)
    {
      var fileName := stems[j];
      ListingStep(stems, key, j);
      if fileName in fileNames {
        duplicates := duplicates + [fileName];
      }
      fileNames := fileNames + {fileName};
      var pairName := key(fileName);
      if pairName in filePairs {
        filePairs := filePairs[pairName := filePairs[pairName] + [fileName]];
      } else {
        filePairs := filePairs[pairName := [fileName]];
        pairOrder := pairOrder + [pairName];
      }
      j := j + 1;
    }
    assert stems[..|stems|] == stems;
    missingPairs := CollectMissingPairs(stems, key, filePairs, pairOrder);
  }

  /** One step of the listing loop, on the prefix the loop has visited. */
  lemma ListingStep(stems: seq<string>, key: KeyFn, j: nat)
    requires j < |stems|
    ensures Duplicates(stems[..j + 1]) == Duplicates(stems[..j]) + (if stems[j] in stems[..j] then [stems[j]] else [])
    ensures KeyOrder(stems[..j + 1], key) ==
      KeyOrder(stems[..j], key) + (if key(stems[j]) in Pairs(stems[..j], key) then [] else [key(stems[j])])
    ensures Pairs(stems[..j + 1], key) ==
      var m := Pairs(stems[..j], key);
      var k := key(stems[j]);
      if k in m then m[k := m[k] + [stems[j]]] else m[k := [stems[j]]]
    ensures stems[..j + 1] == stems[..j] + [stems[j]]
  {
    PrefixStep(stems, j);
    PairsKeys(stems[..j], key);
    assert stems[..j + 1] == stems[..j] + [stems[j]];
  }

  /** The second loop of `check_file_pairs_and_duplicates`, over the dictionary's items. */
  method CollectMissingPairs(stems: seq<string>, key: KeyFn, filePairs: map<string, seq<string>>,
                             pairOrder: seq<string>)
    returns (missingPairs: seq<string>)
    requires filePairs == Pairs(stems, key) && pairOrder == KeyOrder(stems, key)
    ensures missingPairs == MissingPairs(stems, key)
  {
    PairsAreGroups(stems, key);
    missingPairs := [];
    var j := 0;
    while j < |pairOrder|
      invariant 0 <= j <= |pairOrder|
      invariant missingPairs == Singletons(stems, key, pairOrder[..j])
    {
      var pairName := pairOrder[j];
      PrefixStep(pairOrder, j);
      var files := filePairs[pairName];
      if |files| == 1 {
        missingPairs := missingPairs + [files[0]];
      }
      j := j + 1;
    }
    assert pairOrder[..|pairOrder|] == pairOrder;
  }

  // ---------------------------------------------------------------------------
  // Properties

  lemma {:induction false} PairsKeys(stems: seq<string>, key: KeyFn)
    ensures forall k :: k in Pairs(stems, key) <==> k in KeyOrder(stems, key)
    decreases |stems|
  {
    if stems != [] {
      PairsKeys(stems[..|stems| - 1], key);
    }
  }

  /** The dictionary holds exactly the created keys, and each key's list is its group. */
  lemma {:induction false} PairsAreGroups(stems: seq<string>, key: KeyFn)
    ensures forall k :: k in Pairs(stems, key) <==> k in KeyOrder(stems, key)
    ensures forall k :: k in Pairs(stems, key) ==> Pairs(stems, key)[k] == Group(stems, key, k)
    decreases |stems|
  {
    PairsKeys(stems, key);
    if stems != [] {
      var init := stems[..|stems| - 1];
      PairsAreGroups(init, key);
      forall k | k !in Pairs(init, key)
        ensures Group(init, key, k) == []
      {
        GroupMembers(init, key, k);
        if Group(init, key, k) != [] {
          var x := Group(init, key, k)[0];
          assert x in Group(init, key, k);
          var i :| 0 <= i < |init| && init[i] == x;
          KeyOrderMembers(init, key);
        }
      }
    }
  }

  /** No key is created twice. */
  lemma {:induction false} KeyOrderDistinct(stems: seq<string>, key: KeyFn)
    ensures Distinct(KeyOrder(stems, key))
    decreases |stems|
  {
    if stems != [] {
      var init := stems[..|stems| - 1];
      KeyOrderDistinct(init, key);
    }
  }

  /** A key is created exactly when some stem has it. */
  lemma {:induction false} KeyOrderMembers(stems: seq<string>, key: KeyFn)
    ensures forall k :: k in KeyOrder(stems, key) <==> exists i :: 0 <= i < |stems| && key(stems[i]) == k
    decreases |stems|
  {
    if stems != [] {
      var init := stems[..|stems| - 1];
      KeyOrderMembers(init, key);
      forall k | exists i :: 0 <= i < |stems| && key(stems[i]) == k
        ensures k in KeyOrder(stems, key)
      {
        var i :| 0 <= i < |stems| && key(stems[i]) == k;
        if i < |init| {
          assert key(init[i]) == k;
        }
      }
      forall k | k in KeyOrder(init, key)
        ensures exists i :: 0 <= i < |stems| && key(stems[i]) == k
      {
        var i :| 0 <= i < |init| && key(init[i]) == k;
        assert key(stems[i]) == k;
      }
    }
  }

  /** Group `k` holds every occurrence of the stems whose key is `k`, and nothing else. */
  lemma {:induction false} GroupMembers(stems: seq<string>, key: KeyFn, k: string)
    ensures forall x :: multiset(Group(stems, key, k))[x] == if key(x) == k then multiset(stems)[x] else 0
    ensures forall x :: x in Group(stems, key, k) <==> x in stems && key(x) == k
    decreases |stems|
  {
    if stems != [] {
      var init := stems[..|stems| - 1];
      var last := stems[|stems| - 1];
      GroupMembers(init, key, k);
      assert stems == init + [last];
      assert multiset(stems) == multiset(init) + multiset{last};
    }
  }

  /** Grouping respects concatenation: members keep their listing order. */
  lemma {:induction false} GroupConcat(s: seq<string>, t: seq<string>, key: KeyFn, k: string)
    ensures Group(s + t, key, k) == Group(s, key, k) + Group(t, key, k)
    decreases |t|
  {
    if t == [] {
      assert s + t == s;
    } else {
      var tInit := t[..|t| - 1];
      GroupConcat(s, tInit, key, k);
      assert (s + t)[..|s + t| - 1] == s + tInit;
    }
  }

  function Occurrences(keys: seq<string>, k: string): nat
    decreases |keys|
  {
    if keys == [] then 0
    else Occurrences(keys[..|keys| - 1], k) + (if keys[|keys| - 1] == k then 1 else 0)
  }

  lemma {:induction false} OccurrencesDistinct(keys: seq<string>, k: string)
    requires Distinct(keys)
    ensures Occurrences(keys, k) == if k in keys then 1 else 0
    decreases |keys|
  {
    if keys != [] {
      var init := keys[..|keys| - 1];
      assert Distinct(init);
      OccurrencesDistinct(init, k);
      if keys[|keys| - 1] == k {
        assert k !in init;
      }
    }
  }

  lemma {:induction false} GroupSizesSnoc(stems: seq<string>, x: string, key: KeyFn, keys: seq<string>)
    ensures GroupSizes(stems + [x], key, keys) == GroupSizes(stems, key, keys) + Occurrences(keys, key(x))
    decreases |keys|
  {
    if keys != [] {
      GroupSizesSnoc(stems, x, key, keys[..|keys| - 1]);
      assert (stems + [x])[..|stems + [x]| - 1] == stems;
    }
  }

  /** A key not yet created has an empty group. */
  lemma UncreatedKeyEmptyGroup(stems: seq<string>, key: KeyFn, k: string)
    requires k !in KeyOrder(stems, key)
    ensures Group(stems, key, k) == []
  {
    GroupMembers(stems, key, k);
    KeyOrderMembers(stems, key);
  }

  /** The group sizes add up to the number of stems: every stem lands in exactly one group. */
  lemma {:induction false} GroupSizesSum(stems: seq<string>, key: KeyFn)
    ensures GroupSizes(stems, key, KeyOrder(stems, key)) == |stems|
    decreases |stems|
  {
    if stems != [] {
      var init := stems[..|stems| - 1];
      var x := stems[|stems| - 1];
      assert stems == init + [x];
      GroupSizesSum(init, key);
      GroupSizesStep(init, x, key);
    }
  }

  lemma GroupSizesStep(init: seq<string>, x: string, key: KeyFn)
    requires GroupSizes(init, key, KeyOrder(init, key)) == |init|
    ensures GroupSizes(init + [x], key, KeyOrder(init + [x], key)) == |init| + 1
  {
    var keys' := KeyOrder(init + [x], key);
    GroupSizesSnoc(init, x, key, keys');
    KeyOrderOneCopy(init, x, key);
    GroupSizesOldStems(init, x, key);
  }

  /** After the step, the new stem's key is listed exactly once. */
  lemma KeyOrderOneCopy(init: seq<string>, x: string, key: KeyFn)
    ensures Occurrences(KeyOrder(init + [x], key), key(x)) == 1
  {
    assert (init + [x])[..|init|] == init;
    KeyOrderDistinct(init + [x], key);
    OccurrencesDistinct(KeyOrder(init + [x], key), key(x));
  }

  /** The groups of the old stems under the new key order sum as under the old one: a key
      created by the step has an empty old group. */
  lemma GroupSizesOldStems(init: seq<string>, x: string, key: KeyFn)
    ensures GroupSizes(init, key, KeyOrder(init + [x], key)) == GroupSizes(init, key, KeyOrder(init, key))
  {
    var keys := KeyOrder(init, key);
    assert (init + [x])[..|init|] == init;
    if key(x) !in keys {
      UncreatedKeyEmptyGroup(init, key, key(x));
      assert KeyOrder(init + [x], key) == keys + [key(x)];
      assert (keys + [key(x)])[..|keys|] == keys;
    } else {
      assert KeyOrder(init + [x], key) == keys;
    }
  }

  /** A stem is reported once for each occurrence after its first. */
  lemma {:induction false} DuplicatesCount(stems: seq<string>)
    ensures forall x :: multiset(Duplicates(stems))[x] == if x in stems then multiset(stems)[x] - 1 else 0
    decreases |stems|
  {
    if stems != [] {
      var init := stems[..|stems| - 1];
      var last := stems[|stems| - 1];
      DuplicatesCount(init);
      assert stems == init + [last];
      assert multiset(stems) == multiset(init) + multiset{last};
    }
  }

  lemma {:induction false} SingletonsIff(stems: seq<string>, key: KeyFn, keys: seq<string>, x: string)
    ensures x in Singletons(stems, key, keys) <==> exists k | k in keys :: Group(stems, key, k) == [x]
    decreases |keys|
  {
    if keys != [] {
      var init := keys[..|keys| - 1];
      var last := keys[|keys| - 1];
      SingletonsIff(stems, key, init, x);
      var g := Group(stems, key, last);
      assert keys == init + [last];
      assert x in Singletons(stems, key, keys) <==> x in Singletons(stems, key, init) || g == [x];
      if g == [x] {
        assert last in keys;
      }
    }
  }

  /** A stem is reported missing its pair exactly when it is the only member of its group. */
  lemma MissingPairsIff(stems: seq<string>, key: KeyFn, x: string)
    ensures x in MissingPairs(stems, key) <==> Group(stems, key, key(x)) == [x]
  {
    SingletonsIff(stems, key, KeyOrder(stems, key), x);
    if x in MissingPairs(stems, key) {
      var k :| k in KeyOrder(stems, key) && Group(stems, key, k) == [x];
      GroupMembers(stems, key, k);
      assert x in Group(stems, key, k);
    }
    if Group(stems, key, key(x)) == [x] {
      GroupMembers(stems, key, key(x));
      assert x in Group(stems, key, key(x));
      var j :| 0 <= j < |stems| && stems[j] == x;
      KeyOrderMembers(stems, key);
      assert key(stems[j]) == key(x);
    }
  }

  /** A stem listed twice fills a group of two or more and is never reported missing. */
  lemma RepeatedStemNotMissing(stems: seq<string>, key: KeyFn, x: string)
    requires multiset(stems)[x] >= 2
    ensures x !in MissingPairs(stems, key)
  {
    MissingPairsIff(stems, key, x);
    GroupMembers(stems, key, key(x));
    assert multiset(Group(stems, key, key(x)))[x] >= 2;
  }
}
