/** Merging localisation files: the two-pointer loops of scripts/merge_strings.rb. */
module MergeStrings {
  import opened Outcomes
  import opened StringOrder

  datatype Localization = Localization(comment: Option<string>, key: string, value: string)

  /** Sorted by key, without repeats, as the script expects both files. */
  predicate SortedByKey(list: seq<Localization>) {
    forall i, j | 0 <= i < j < |list| :: Less(list[i].key, list[j].key)
  }

  predicate HasKey(list: seq<Localization>, key: string) {
    exists i | 0 <= i < |list| :: list[i].key == key
  }

  /** The merged entry for a generated one: its key and comment, the existing translation if there is one. */
  predicate MergedFrom(generated: Localization, existing: seq<Localization>, merged: Localization) {
    && merged.key == generated.key && merged.comment == generated.comment
    && (forall j | 0 <= j < |existing| && existing[j].key == generated.key :: merged.value == existing[j].value)
    && (!HasKey(existing, generated.key) ==> merged.value == generated.value)
  }

  /** The output has exactly the generated keys, in order. */
  method Merge(generated: seq<Localization>, existing: seq<Localization>) returns (merged: seq<Localization>)
    requires SortedByKey(generated) && SortedByKey(existing)
    ensures |merged| == |generated|
    ensures forall i | 0 <= i < |generated| :: MergedFrom(generated[i], existing, merged[i])
  {
    hide Less;
    merged := [];
    var generatedIdx, existingIdx := 0, 0;
    while generatedIdx < |generated| && existingIdx < |existing|
      invariant generatedIdx <= |generated| && existingIdx <= |existing|
      invariant |merged| == generatedIdx
      invariant forall i | 0 <= i < generatedIdx :: MergedFrom(generated[i], existing, merged[i])
      invariant forall j | 0 <= j < existingIdx && generatedIdx < |generated| ::
                  Less(existing[j].key, generated[generatedIdx].key)
      decreases (|generated| - generatedIdx) + (|existing| - existingIdx)
    {
      var g, e := generated[generatedIdx], existing[existingIdx];
      Trichotomy(g.key, e.key);
      ForeignKeys(existing, existingIdx, g.key);
      if g.key == e.key {
        var m := Localization(g.comment, g.key, e.value);
        assert MergedFrom(g, existing, m);
        merged := merged + [m];
        NextKey(generated, existing, generatedIdx, existingIdx + 1);
        generatedIdx, existingIdx := generatedIdx + 1, existingIdx + 1;
      } else if Less(g.key, e.key) {
        var m := Localization(g.comment, g.key, g.value);
        assert MergedFrom(g, existing, m);
        merged := merged + [m];
        NextKey(generated, existing, generatedIdx, existingIdx);
        generatedIdx := generatedIdx + 1;
      } else {
        existingIdx := existingIdx + 1;
      }
    }
    while generatedIdx < |generated|
      invariant generatedIdx <= |generated| && |merged| == generatedIdx
      invariant forall i | 0 <= i < generatedIdx :: MergedFrom(generated[i], existing, merged[i])
      invariant generatedIdx < |generated| ==>
                  forall j | 0 <= j < |existing| :: Less(existing[j].key, generated[generatedIdx].key)
    {
      var g := generated[generatedIdx];
      forall j | 0 <= j < |existing| ensures existing[j].key != g.key {
        Trichotomy(existing[j].key, g.key);
      }
      assert MergedFrom(g, existing, g);
      merged := merged + [g];
      NextKey(generated, existing, generatedIdx, |existing|);
      generatedIdx := generatedIdx + 1;
    }
  }

  /** Where a key can still be in a sorted list when everything before position `at` is smaller. */
  lemma ForeignKeys(existing: seq<Localization>, at: nat, key: string)
    requires SortedByKey(existing) && at < |existing|
    requires forall j | 0 <= j < at :: Less(existing[j].key, key)
    ensures forall j | 0 <= j < |existing| && existing[j].key == key :: j >= at
    ensures key == existing[at].key ==> forall j | 0 <= j < |existing| && existing[j].key == key :: j == at
    ensures Less(key, existing[at].key) ==> !HasKey(existing, key)
  {
    forall j | 0 <= j < |existing| && existing[j].key == key
      ensures j >= at && (key == existing[at].key ==> j == at) && !Less(key, existing[at].key)
    {
      Trichotomy(existing[j].key, key);
      if j > at {
        Trichotomy(existing[at].key, existing[j].key);
      }
    }
  }

  /** Everything not greater than one generated key is smaller than the next. */
  lemma NextKey(generated: seq<Localization>, existing: seq<Localization>, at: nat, count: nat)
    requires SortedByKey(generated) && at < |generated| && count <= |existing|
    requires forall j | 0 <= j < count ::
               existing[j].key == generated[at].key || Less(existing[j].key, generated[at].key)
    ensures forall j | 0 <= j < count && at + 1 < |generated| :: Less(existing[j].key, generated[at + 1].key)
  {
    forall j | 0 <= j < count && at + 1 < |generated| ensures Less(existing[j].key, generated[at + 1].key) {
      if existing[j].key != generated[at].key {
        Transitive(existing[j].key, generated[at].key, generated[at + 1].key);
      }
    }
  }

  /** The contract determines the output: two merges of the same files agree. */
  lemma MergeIsDetermined(g: Localization, existing: seq<Localization>, a: Localization, b: Localization)
    requires MergedFrom(g, existing, a) && MergedFrom(g, existing, b)
    ensures a == b
  {
    if HasKey(existing, g.key) {
      var j :| 0 <= j < |existing| && existing[j].key == g.key;
    }
  }
}
