/** The Internal Link Juicer hand-off (`aiseo_add_keywords_to_link_juicer`):
    a post's AI SEO keyword terms are merged into its `_ilj_keywords` meta,
    keeping each keyword's first occurrence, and the meta is written only
    when the merged array differs from the stored one.

    PHP arrays here are integer-keyed lists whose keys need not be
    consecutive: `array_unique` keeps the key of each surviving element. */
module LinkJuicer {
  import opened Wrappers

  /** A PHP array of strings as its (key, value) pairs, in order. */
  type PhpArray = seq<(nat, string)>

  function Values(a: PhpArray): (vs: seq<string>)
    ensures |vs| == |a|
    ensures forall i :: 0 <= i < |a| ==> vs[i] == a[i].1
  {
    seq(|a|, i requires 0 <= i < |a| => a[i].1)
  }

  /** `array_merge` of integer-keyed arrays: the values of both, renumbered
      from zero. */
  function ArrayMerge(a: PhpArray, b: seq<string>): (r: PhpArray)
    ensures |r| == |a| + |b|
    ensures forall i :: 0 <= i < |r| ==> r[i].0 == i
    ensures Values(r) == Values(a) + b
  {
    var vs := Values(a) + b;
    seq(|vs|, i requires 0 <= i < |vs| => (i, vs[i]))
  }

  // ---------------------------------------------------------------------
  // first occurrences
  // ---------------------------------------------------------------------

  /** The values of `vs` not in `seen`, each at its first occurrence. */
  function DedupFrom(vs: seq<string>, seen: set<string>): (r: seq<string>)
    ensures forall v :: v in r <==> v in vs && v !in seen
  {
    if vs == [] then []
    else if vs[0] in seen then DedupFrom(vs[1..], seen)
    else [vs[0]] + DedupFrom(vs[1..], seen + {vs[0]})
  }

  /** The reference meaning of keeping first occurrences, on values alone. */
  function Dedup(vs: seq<string>): seq<string>
  {
    DedupFrom(vs, {})
  }

  /** `array_unique` from position 0 on, with `seen` the values already kept:
      an element survives, with its key, iff its value was not seen before. */
  function UniqueFrom(a: PhpArray, seen: set<string>): (r: PhpArray)
    ensures forall p :: p in r ==> p in a
  {
    if a == [] then []
    else if a[0].1 in seen then UniqueFrom(a[1..], seen)
    else [a[0]] + UniqueFrom(a[1..], seen + {a[0].1})
  }

  /** PHP `array_unique($a)`. */
  function ArrayUnique(a: PhpArray): PhpArray
  {
    UniqueFrom(a, {})
  }

  /** `array_unique` keeps exactly the first occurrences the reference
      definition describes. */
  lemma {:induction false} UniqueValues(a: PhpArray, seen: set<string>)
    ensures Values(UniqueFrom(a, seen)) == DedupFrom(Values(a), seen)
    decreases |a|
  {
    if a != [] {
      UniqueValues(a[1..], seen);
      UniqueValues(a[1..], seen + {a[0].1});
      assert Values(a)[1..] == Values(a[1..]);
      if a[0].1 !in seen {
        assert Values([a[0]] + UniqueFrom(a[1..], seen + {a[0].1}))
            == [a[0].1] + Values(UniqueFrom(a[1..], seen + {a[0].1}));
      }
    }
  }

  predicate Distinct(vs: seq<string>) {
    forall i, j :: 0 <= i < j < |vs| ==> vs[i] != vs[j]
  }

  lemma {:induction false} DedupDistinct(vs: seq<string>, seen: set<string>)
    ensures Distinct(DedupFrom(vs, seen))
    decreases |vs|
  {
    if vs != [] {
      DedupDistinct(vs[1..], seen);
      DedupDistinct(vs[1..], seen + {vs[0]});
    }
  }

  lemma {:induction false} DedupAppend(x: seq<string>, y: seq<string>, seen: set<string>)
    ensures DedupFrom(x + y, seen) == DedupFrom(x, seen) + DedupFrom(y, seen + set v | v in x)
    decreases |x|
  {
    if x == [] {
      assert x + y == y;
      assert (set v | v in x) == {};
      assert seen + {} == seen;
    } else {
      assert (x + y)[1..] == x[1..] + y;
      var seen' := if x[0] in seen then seen else seen + {x[0]};
      DedupAppend(x[1..], y, seen');
      assert seen' + (set v | v in x[1..]) == seen + (set v | v in x);
    }
  }

  lemma {:induction false} DedupAllSeen(y: seq<string>, seen: set<string>)
    requires forall v :: v in y ==> v in seen
    ensures DedupFrom(y, seen) == []
    decreases |y|
  {
    if y != [] {
      DedupAllSeen(y[1..], seen);
    }
  }

  lemma {:induction false} DedupOfDistinct(vs: seq<string>, seen: set<string>)
    requires Distinct(vs)
    requires forall v :: v in vs ==> v !in seen
    ensures DedupFrom(vs, seen) == vs
    decreases |vs|
  {
    if vs != [] {
      assert forall v :: v in vs[1..] ==> v != vs[0];
      DedupOfDistinct(vs[1..], seen + {vs[0]});
      assert [vs[0]] + vs[1..] == vs;
    }
  }

  /** Keeping first occurrences twice over is the same as once, even after
      appending values that were already there. */
  lemma DedupAbsorbs(x: seq<string>, y: seq<string>)
    ensures Dedup(Dedup(x + y) + y) == Dedup(x + y)
  {
    var d := Dedup(x + y);
    DedupAppend(d, y, {});
    DedupDistinct(x + y, {});
    DedupOfDistinct(d, {});
    DedupAllSeen(y, {} + set v | v in d);
  }

  // ---------------------------------------------------------------------
  // the merge
  // ---------------------------------------------------------------------

  /** `wp_get_post_terms(..., 'names')`: the names, or a `WP_Error`. */
  datatype Terms = TermNames(names: seq<string>) | TermsError(message: string)

  /** The stored `_ilj_keywords` meta: an array, or anything else. */
  datatype Meta = ArrayMeta(items: PhpArray) | OtherMeta

  function Existing(meta: Meta): PhpArray
  {
    if meta.ArrayMeta? then meta.items else []
  }

  /** `array_unique(array_merge($existing, $ai))`. */
  function Merged(meta: Meta, names: seq<string>): (r: PhpArray)
    ensures Values(r) == Dedup(Values(Existing(meta)) + names)
  {
    UniqueValues(ArrayMerge(Existing(meta), names), {});
    ArrayUnique(ArrayMerge(Existing(meta), names))
  }

  /** The update the function issues as written, `None` for no update: none
      without terms, otherwise one whenever the merged array is not
      identical (keys, values and order) to the stored one. */
  function AddKeywordsAsWritten(meta: Meta, terms: Terms): (r: Option<PhpArray>)
    ensures r.Some? <==> terms.TermNames? && terms.names != [] && Merged(meta, terms.names) != Existing(meta)
    ensures r.Some? ==> r.value == Merged(meta, terms.names)
    ensures r.Some? ==> Values(r.value) == Dedup(Values(Existing(meta)) + terms.names)
  {
    if terms.TermsError? || terms.names == [] then None
    else
      var merged := Merged(meta, terms.names);
      if merged != Existing(meta) then Some(merged) else None
  }

  /** As written, a second run with the same terms can write again although
      no keyword changed: the stored array keeps the key gap `array_unique`
      left, while the renumbered merge closes it. */
  lemma AsWrittenRewritesUnchangedKeywords()
    ensures var first := AddKeywordsAsWritten(ArrayMeta([(0, "a"), (1, "b")]), TermNames(["a", "c"]));
            first == Some([(0, "a"), (1, "b"), (3, "c")]) &&
            var second := AddKeywordsAsWritten(ArrayMeta(first.value), TermNames(["a", "c"]));
            second == Some([(0, "a"), (1, "b"), (2, "c")]) &&
            Values(second.value) == Values(first.value)
  {
    FirstRunMerge();
    SecondRunMerge();
    var w1: PhpArray := [(0, "a"), (1, "b"), (3, "c")];
    var w2: PhpArray := [(0, "a"), (1, "b"), (2, "c")];
    assert w1 != [(0, "a"), (1, "b")];
    assert w2 != w1 by { assert w2[2] != w1[2]; }
    assert Values(w1) == ["a", "b", "c"] == Values(w2);
  }

  lemma FirstRunMerge()
    ensures ArrayUnique(ArrayMerge([(0, "a"), (1, "b")], ["a", "c"])) == [(0, "a"), (1, "b"), (3, "c")]
  {
    var m1 := ArrayMerge([(0, "a"), (1, "b")], ["a", "c"]);
    assert Values([(0, "a"), (1, "b")]) == ["a", "b"];
    assert m1 == [(0, "a"), (1, "b"), (2, "a"), (3, "c")];
    UniqueSteps1();
  }

  lemma UniqueSteps1()
    ensures ArrayUnique([(0, "a"), (1, "b"), (2, "a"), (3, "c")]) == [(0, "a"), (1, "b"), (3, "c")]
  {
    assert "a" != "b" && "a" != "c" && "b" != "c";
    assert {} + {"a"} == {"a"} && {"a"} + {"b"} == {"a", "b"};
    var m1: PhpArray := [(0, "a"), (1, "b"), (2, "a"), (3, "c")];
    var t1 := m1[1..];
    assert t1 == [(1, "b"), (2, "a"), (3, "c")];
    assert t1[1..] == [(2, "a"), (3, "c")] && t1[1..][1..] == [(3, "c")];
    assert UniqueFrom([(3, "c")], {"a", "b"}) == [(3, "c")];
    assert UniqueFrom(t1[1..], {"a", "b"}) == [(3, "c")];
    assert UniqueFrom(t1, {"a"}) == [(1, "b"), (3, "c")];
  }

  lemma SecondRunMerge()
    ensures ArrayUnique(ArrayMerge([(0, "a"), (1, "b"), (3, "c")], ["a", "c"])) == [(0, "a"), (1, "b"), (2, "c")]
  {
    var m2 := ArrayMerge([(0, "a"), (1, "b"), (3, "c")], ["a", "c"]);
    assert Values([(0, "a"), (1, "b"), (3, "c")]) == ["a", "b", "c"];
    assert m2 == [(0, "a"), (1, "b"), (2, "c"), (3, "a"), (4, "c")];
    UniqueSteps2();
  }

  lemma UniqueSteps2()
    ensures ArrayUnique([(0, "a"), (1, "b"), (2, "c"), (3, "a"), (4, "c")]) == [(0, "a"), (1, "b"), (2, "c")]
  {
    assert "a" != "b" && "a" != "c" && "b" != "c";
    assert {} + {"a"} == {"a"} && {"a"} + {"b"} == {"a", "b"} && {"a", "b"} + {"c"} == {"a", "b", "c"};
    var m2: PhpArray := [(0, "a"), (1, "b"), (2, "c"), (3, "a"), (4, "c")];
    var t2 := m2[1..];
    assert t2 == [(1, "b"), (2, "c"), (3, "a"), (4, "c")];
    assert t2[1..] == [(2, "c"), (3, "a"), (4, "c")];
    assert t2[1..][1..] == [(3, "a"), (4, "c")] && t2[1..][1..][1..] == [(4, "c")];
    assert UniqueFrom([(4, "c")], {"a", "b", "c"}) == [];
    assert UniqueFrom(t2[1..][1..], {"a", "b", "c"}) == [];
    assert UniqueFrom(t2[1..], {"a", "b"}) == [(2, "c")];
    assert UniqueFrom(t2, {"a"}) == [(1, "b"), (2, "c")];
  }

  /** The update as intended: written only when the keyword values change. */
  function AddKeywords(meta: Meta, terms: Terms): (r: Option<PhpArray>)
    ensures r.Some? <==> terms.TermNames? && terms.names != [] &&
                         Dedup(Values(Existing(meta)) + terms.names) != Values(Existing(meta))
    ensures r.Some? ==> r.value == Merged(meta, terms.names)
  {
    if terms.TermsError? || terms.names == [] then None
    else
      var merged := Merged(meta, terms.names);
      if Values(merged) != Values(Existing(meta)) then Some(merged) else None
  }

  /** Every stored keyword and every term name is in the merged list. */
  lemma MergeKeepsAll(meta: Meta, names: seq<string>)
    ensures forall v :: v in Values(Existing(meta)) ==> v in Values(Merged(meta, names))
    ensures forall v :: v in names ==> v in Values(Merged(meta, names))
    ensures Distinct(Values(Merged(meta, names)))
  {
    DedupDistinct(Values(Existing(meta)) + names, {});
  }

  /** Running the intended update again with the same terms writes nothing. */
  lemma AddKeywordsSettles(meta: Meta, terms: Terms)
    requires AddKeywords(meta, terms).Some?
    ensures AddKeywords(ArrayMeta(AddKeywords(meta, terms).value), terms) == None
  {
    var w := AddKeywords(meta, terms).value;
    DedupAbsorbs(Values(Existing(meta)), terms.names);
  }

  /** A term name the stored meta lacks is always written by the intended
      update, and lands in the stored keywords. */
  lemma NewNameWrites(meta: Meta, names: seq<string>, v: string)
    requires v in names && v !in Values(Existing(meta))
    ensures AddKeywords(meta, TermNames(names)).Some?
    ensures v in Values(AddKeywords(meta, TermNames(names)).value)
  {
    MergeKeepsAll(meta, names);
  }

  /** When the stored keywords are already distinct and hold every term
      name, the intended update writes nothing. */
  lemma KnownNamesNoWrite(meta: Meta, names: seq<string>)
    requires Distinct(Values(Existing(meta)))
    requires forall v :: v in names ==> v in Values(Existing(meta))
    ensures AddKeywords(meta, TermNames(names)) == None
  {
    var x := Values(Existing(meta));
    DedupAppend(x, names, {});
    DedupOfDistinct(x, {});
    DedupAllSeen(names, {} + set v | v in x);
    assert x + [] == x;
  }
}
