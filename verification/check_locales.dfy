/**
 * The cross-locale schema unifier: `Locale::key_missmatch`,
 * `Locale::check_locales_inner` and `Locale::check_locales`.
 *
 * The specification functions below describe what the unifier computes; the
 * methods follow the source's loops over its hash maps and are proved against
 * them.
 */
module LocaleCheck {
  import opened Results
  import opened ParsedValues
  import opened Errors
  import opened LocaleData

  /** The variable the parser's rename turns a bare `count` placeholder into. */
  const VarCount: InterpolateKey := Variable("var_count")

  // ---------------------------------------------------------------------------
  // Key-set agreement

  /**
   * The first locale at index `j` or later whose key set differs from the
   * first locale's.
   */
  function FirstMismatchFrom(locales: seq<Locale>, j: nat): (r: Option<nat>)
    requires 0 < |locales|
    decreases |locales| - j
    ensures r.Some? ==> j <= r.value < |locales| && locales[r.value].GetKeys() != locales[0].GetKeys()
    ensures r.Some? ==> forall m :: j <= m < r.value ==> locales[m].GetKeys() == locales[0].GetKeys()
    ensures r.None? ==> forall m :: j <= m < |locales| ==> locales[m].GetKeys() == locales[0].GetKeys()
  {
    if j >= |locales| then None
    else if locales[j].GetKeys() != locales[0].GetKeys() then Some(j)
    else FirstMismatchFrom(locales, j + 1)
  }

  /** The first later locale whose key set differs from the first locale's. */
  function FirstMismatch(locales: seq<Locale>): Option<nat>
    requires 0 < |locales|
  {
    FirstMismatchFrom(locales, 1)
  }

  /**
   * `Locale::key_missmatch`: the keys `locale2` lacks are reported against
   * `locale2`; when it lacks none, the keys `locale1` lacks are reported
   * against `locale1`.
   */
  function KeyMissmatch(locale1: Locale, keys1: set<string>, locale2: Locale, keys2: set<string>,
                        namespace: Option<string>): (e: Error)
    ensures e.MissingKeysInLocale? && e.namespace == namespace
    ensures keys1 - keys2 != {} ==> e.keys == keys1 - keys2 && e.locale == locale2.name
    ensures keys1 - keys2 == {} ==> e.keys == keys2 - keys1 && e.locale == locale1.name
    ensures keys1 != keys2 ==> e.keys != {}
  {
    var diff := keys1 - keys2;
    if diff != {} then
      MissingKeysInLocale(namespace, diff, locale2.name)
    else
      MissingKeysInLocale(namespace, keys2 - keys1, locale1.name)
  }

  // ---------------------------------------------------------------------------
  // Interpolation-key accumulation

  /**
   * The accumulator of `key` once the first `n` locales have been folded in:
   * the first locale's keys, then each later locale's value for `key` merged
   * in slice order.
   */
  function KeyAcc(locales: seq<Locale>, key: string, n: nat): Option<set<InterpolateKey>>
    requires 1 <= n <= |locales|
    requires key in locales[0].keys
  {
    if n == 1 then GetKeys(locales[0].keys[key])
    else
      var acc := KeyAcc(locales, key, n - 1);
      if key in locales[n - 1].keys then GetKeysInner(locales[n - 1].keys[key], acc) else acc
  }

  /** The whole accumulator map after the first `n` locales. */
  function Accumulated(locales: seq<Locale>, n: nat): map<string, Option<set<InterpolateKey>>>
    requires 1 <= n <= |locales|
  {
    map key | key in locales[0].keys :: KeyAcc(locales, key, n)
  }

  /** Locale `l` contributes interpolation key `x` to translation key `key`. */
  predicate Contributes(l: Locale, key: string, x: InterpolateKey)
  {
    key in l.keys && InOpt(x, GetKeys(l.keys[key]))
  }

  /**
   * The accumulator is the union of what every locale contributes for that
   * key, and it is `None` exactly when no locale contributes anything.
   */
  lemma {:induction false} AccumulatorIsUnion(locales: seq<Locale>, key: string, n: nat)
    requires 1 <= n <= |locales|
    requires key in locales[0].keys
    ensures KeyAcc(locales, key, n).None? <==>
              forall i :: 0 <= i < n && key in locales[i].keys ==> GetKeys(locales[i].keys[key]).None?
    ensures forall x :: InOpt(x, KeyAcc(locales, key, n)) <==>
              exists i :: 0 <= i < n && Contributes(locales[i], key, x)
  {
    if n > 1 {
      AccumulatorIsUnion(locales, key, n - 1);
      if key in locales[n - 1].keys {
        GetKeysInnerIsUnion(locales[n - 1].keys[key], KeyAcc(locales, key, n - 1));
      }
      forall x | exists i :: 0 <= i < n && Contributes(locales[i], key, x)
        ensures InOpt(x, KeyAcc(locales, key, n))
      {
        var i :| 0 <= i < n && Contributes(locales[i], key, x);
        if i < n - 1 {
          assert exists i' :: 0 <= i' < n - 1 && Contributes(locales[i'], key, x);
        }
      }
    }
  }

  /**
   * The accumulator of `key` is built from the locales' values for `key` and
   * from nothing else.
   */
  lemma {:induction false} AccumulatorReadsOnlyItsKey(a: seq<Locale>, b: seq<Locale>, key: string, n: nat)
    requires 1 <= n <= |a| && n <= |b|
    requires key in a[0].keys
    requires forall i :: 0 <= i < n ==> (key in a[i].keys <==> key in b[i].keys)
    requires forall i :: 0 <= i < n && key in a[i].keys ==> a[i].keys[key] == b[i].keys[key]
    ensures KeyAcc(a, key, n) == KeyAcc(b, key, n)
  {
    if n > 1 {
      AccumulatorReadsOnlyItsKey(a, b, key, n - 1);
    }
  }

  // ---------------------------------------------------------------------------
  // Plural taxonomies

  /** The set holds a `Count` entry. */
  predicate HasCount(s: set<InterpolateKey>)
  {
    exists x :: x in s && x.Count?
  }

  /** The set holds two `Count` entries of different plural taxonomies. */
  predicate PluralConflict(s: set<InterpolateKey>)
  {
    exists x, y :: x in s && y in s && x.Count? && y.Count? && x.pluralType != y.pluralType
  }

  /** An accumulator that is a set with a plural conflict. */
  predicate ConflictAt(acc: Option<set<InterpolateKey>>)
  {
    acc.Some? && PluralConflict(acc.value)
  }

  /**
   * Whichever `Count` entry the hash-set iteration meets first, comparing the
   * others against it detects a conflict exactly when the set has one.
   */
  lemma FirstCountChoiceIrrelevant(s: set<InterpolateKey>, p: PluralType)
    requires Count(p) in s
    ensures (exists x :: x in s && x.Count? && x.pluralType != p) <==> PluralConflict(s)
  {
  }

  /**
   * The set without the reserved `var_count` variable, which an accompanying
   * `Count` entry replaces.
   */
  function RetainWithoutVarCount(s: set<InterpolateKey>): (r: set<InterpolateKey>)
    ensures forall x :: x in r <==> x in s && x != VarCount
  {
    set x | x in s && !(x.Variable? && x.name == "var_count")
  }

  /**
   * The count rule applied to one accumulator: a set holding a `Count`
   * loses only `Variable("var_count")`; a set without one and a `None`
   * accumulator are left unchanged.
   */
  function ApplyCountRule(acc: Option<set<InterpolateKey>>): (r: Option<set<InterpolateKey>>)
    ensures r.None? <==> acc.None?
    ensures acc.Some? && !HasCount(acc.value) ==> r == acc
    ensures acc.Some? && HasCount(acc.value) ==>
              forall x :: x in r.value <==> x in acc.value && x != VarCount
  {
    match acc
    case None => None
    case Some(s) => if HasCount(s) then Some(RetainWithoutVarCount(s)) else acc
  }

  // ---------------------------------------------------------------------------
  // The unifier's outcome

  /** The translation keys whose final accumulator has a plural conflict. */
  function ConflictKeys(locales: seq<Locale>): set<string>
    requires 0 < |locales|
  {
    set key | key in locales[0].keys && ConflictAt(KeyAcc(locales, key, |locales|))
  }

  /** The group cannot be unified. */
  predicate Fails(locales: seq<Locale>)
    requires 0 < |locales|
  {
    FirstMismatch(locales).Some? || ConflictKeys(locales) != {}
  }

  /** The schema a group that can be unified yields. */
  function Unified(locales: seq<Locale>): BuildersKeysInner
    requires 0 < |locales|
  {
    map key | key in locales[0].keys :: NewLocaleValue(ApplyCountRule(KeyAcc(locales, key, |locales|)))
  }

  /**
   * `e` is an error the unifier may report for a failing group: the key
   * mismatch of the first offending locale if there is one, otherwise a plural
   * mismatch naming some conflicting key (which one depends on hash-map
   * iteration order).
   */
  predicate IsUnifierError(locales: seq<Locale>, namespace: Option<string>, e: Error)
    requires 0 < |locales|
  {
    match FirstMismatch(locales)
    case Some(i) =>
      e == KeyMissmatch(locales[0], locales[0].GetKeys(), locales[i], locales[i].GetKeys(), namespace)
    case None =>
      e.PluralTypeMissmatch? && e.localeKey in ConflictKeys(locales) && e.namespace == namespace
  }

  /**
   * `find_map` over the set: some plural taxonomy used by a `Count` entry, if
   * there is one. Which one depends on hash-set iteration order.
   */
  method FindCount(s: set<InterpolateKey>) returns (r: Option<PluralType>)
    ensures r.None? <==> !HasCount(s)
    ensures r.Some? ==> Count(r.value) in s
  {
    if HasCount(s) {
      var x :| x in s && x.Count?;
      r := Some(x.pluralType);
    } else {
      r := None;
    }
  }

  /**
   * The inner loop of `check_locales_inner` for one later locale: every
   * accumulator whose key the locale defines gets the locale's value merged
   * in, in place.
   */
  method MergeLocale(mapped: map<string, Option<set<InterpolateKey>>>, locale: Locale,
                     ghost locales: seq<Locale>, ghost i: nat)
    returns (merged: map<string, Option<set<InterpolateKey>>>)
    requires 1 <= i < |locales| && locale == locales[i]
    requires mapped == Accumulated(locales, i)
    ensures merged == Accumulated(locales, i + 1)
  {
    merged := mapped;
    var todo := merged.Keys;
    while todo != {}
      invariant todo <= mapped.Keys && merged.Keys == mapped.Keys
      invariant forall key :: key in merged ==>
                  merged[key] == if key in todo then KeyAcc(locales, key, i) else KeyAcc(locales, key, i + 1)
      decreases todo
    {
      var key :| key in todo;
      if key in locale.keys {
        merged := merged[key := GetKeysInner(locale.keys[key], merged[key])];
      }
      todo := todo - {key};
    }
  }

  /**
   * The plural-taxonomy pass of `check_locales_inner`: fails on some key whose
   * accumulator mixes plural taxonomies; otherwise applies the count rule to
   * every accumulator, in place.
   */
  method ResolveCounts(mapped: map<string, Option<set<InterpolateKey>>>, namespace: Option<string>)
    returns (r: Result<map<string, Option<set<InterpolateKey>>>, Error>)
    ensures r.Success? <==> forall key :: key in mapped ==> !ConflictAt(mapped[key])
    ensures r.Success? ==> r.value == map key | key in mapped :: ApplyCountRule(mapped[key])
    ensures r.Failure? ==>
              && r.error.PluralTypeMissmatch?
              && r.error.localeKey in mapped && ConflictAt(mapped[r.error.localeKey])
              && r.error.namespace == namespace
  {
    var resolved := mapped;
    var todo := resolved.Keys;
    while todo != {}
      invariant todo <= mapped.Keys && resolved.Keys == mapped.Keys
      invariant forall key :: key in resolved ==>
                  resolved[key] == if key in todo then mapped[key] else ApplyCountRule(mapped[key])
      invariant forall key :: key in mapped && key !in todo ==> !ConflictAt(mapped[key])
      decreases todo
    {
      var key :| key in todo;
      if resolved[key].Some? {
        var keys := resolved[key].value;
        var countType := FindCount(keys);
        if countType.Some? {
          var pluralTypeMismatch := exists x :: x in keys && x.Count? && x.pluralType != countType.value;
          FirstCountChoiceIrrelevant(keys, countType.value);
          if pluralTypeMismatch {
            return Failure(PluralTypeMissmatch(key, namespace));
          }
          resolved := resolved[key := Some(RetainWithoutVarCount(keys))];
        }
      }
      todo := todo - {key};
    }
    r := Success(resolved);
  }

  /**
   * `Locale::check_locales_inner`. The slice must not be empty (the source
   * unwraps its first element).
   */
  method CheckLocalesInner(locales: seq<Locale>, namespace: Option<string>) returns (r: Result<BuildersKeysInner, Error>)
    requires 0 < |locales|
    ensures r.Success? <==> !Fails(locales)
    ensures r.Success? ==> r.value == Unified(locales)
    ensures r.Failure? ==> IsUnifierError(locales, namespace, r.error)
  {
    var first := locales[0];
    var firstKeys := first.GetKeys();
    var mapped := map key | key in first.keys :: GetKeys(first.keys[key]);

    var i := 1;
    while i < |locales|
      invariant 1 <= i <= |locales|
      invariant FirstMismatch(locales) == FirstMismatchFrom(locales, i)
      invariant mapped == Accumulated(locales, i)
    {
      var locale := locales[i];
      var keys := locale.GetKeys();
      if firstKeys != keys {
        return Failure(KeyMissmatch(first, firstKeys, locale, keys, namespace));
      }
      mapped := MergeLocale(mapped, locale, locales, i);
      i := i + 1;
    }

    var resolved := ResolveCounts(mapped, namespace);
    if resolved.Failure? {
      assert resolved.error.localeKey in ConflictKeys(locales);
      return Failure(resolved.error);
    }
    assert forall key :: key in locales[0].keys ==> key in mapped && !ConflictAt(KeyAcc(locales, key, |locales|));
    assert ConflictKeys(locales) == {};
    r := Success(map key | key in resolved.value :: NewLocaleValue(resolved.value[key]));
  }

  // ---------------------------------------------------------------------------
  // Properties of the unifier's outcome

  /**
   * A key mismatch is blamed on the first later locale, in slice order, whose
   * key set differs from the first locale's.
   */
  lemma MismatchBlamesFirstOffender(locales: seq<Locale>, i: nat)
    requires 1 <= i < |locales|
    requires locales[i].GetKeys() != locales[0].GetKeys()
    requires forall j :: 1 <= j < i ==> locales[j].GetKeys() == locales[0].GetKeys()
    ensures FirstMismatch(locales) == Some(i)
    ensures forall ns, e :: IsUnifierError(locales, ns, e) ==>
              e == KeyMissmatch(locales[0], locales[0].GetKeys(), locales[i], locales[i].GetKeys(), ns) &&
              e.MissingKeysInLocale?
  {
  }

  /**
   * Once a key mismatch is found, the locales after the offender are never
   * looked at: appending any locales leaves the reported error unchanged.
   */
  lemma {:induction false} MismatchIgnoresLaterLocales(locales: seq<Locale>, extra: seq<Locale>, namespace: Option<string>)
    requires 0 < |locales|
    requires FirstMismatch(locales).Some?
    ensures FirstMismatch(locales + extra) == FirstMismatch(locales)
    ensures Fails(locales + extra)
    ensures forall e :: IsUnifierError(locales + extra, namespace, e) <==> IsUnifierError(locales, namespace, e)
  {
    var all := locales + extra;
    var i := FirstMismatch(locales).value;
    assert all[0] == locales[0] && all[i] == locales[i];
    forall j | 1 <= j < i ensures all[j].GetKeys() == all[0].GetKeys() {
      assert all[j] == locales[j];
    }
    MismatchBlamesFirstOffender(all, i);
  }

  /**
   * The schema has exactly the first locale's keys; a key is a plain string
   * exactly when no locale's value for it references an interpolation key;
   * and a builder without a `Count` entry holds exactly the interpolation
   * keys the locales contribute.
   */
  lemma UnifiedSchema(locales: seq<Locale>)
    requires 0 < |locales|
    ensures Unified(locales).Keys == locales[0].GetKeys()
    ensures forall key :: key in locales[0].keys ==>
              (Unified(locales)[key].String? <==>
                 forall i :: 0 <= i < |locales| && key in locales[i].keys ==> GetKeys(locales[i].keys[key]).None?)
    ensures forall key :: key in locales[0].keys && KeyAcc(locales, key, |locales|).Some? &&
                          !HasCount(KeyAcc(locales, key, |locales|).value) ==>
              && Unified(locales)[key].Builder?
              && forall x :: x in Unified(locales)[key].keys <==>
                   exists i :: 0 <= i < |locales| && Contributes(locales[i], key, x)
  {
    forall key | key in locales[0].keys
      ensures Unified(locales)[key].String? <==>
                forall i :: 0 <= i < |locales| && key in locales[i].keys ==> GetKeys(locales[i].keys[key]).None?
      ensures KeyAcc(locales, key, |locales|).Some? && !HasCount(KeyAcc(locales, key, |locales|).value) ==>
                forall x :: x in Unified(locales)[key].keys <==>
                  exists i :: 0 <= i < |locales| && Contributes(locales[i], key, x)
    {
      AccumulatorIsUnion(locales, key, |locales|);
      var acc := KeyAcc(locales, key, |locales|);
      if acc.Some? && !HasCount(acc.value) {
        forall x ensures x in Unified(locales)[key].keys <==> InOpt(x, acc) {
        }
      }
    }
  }

  /** Some locale gives `key` a plural selector of taxonomy `p`. */
  predicate UsesPluralType(locales: seq<Locale>, key: string, p: PluralType)
  {
    exists i :: 0 <= i < |locales| && Contributes(locales[i], key, Count(p))
  }

  /**
   * A key has a plural conflict exactly when the locales, taken together,
   * give it plural selectors of two different taxonomies.
   */
  lemma PluralConflictAcrossLocales(locales: seq<Locale>, key: string)
    requires 0 < |locales| && key in locales[0].keys
    ensures key in ConflictKeys(locales) <==>
              exists p, q :: p != q && UsesPluralType(locales, key, p) && UsesPluralType(locales, key, q)
  {
    AccumulatorIsUnion(locales, key, |locales|);
    var acc := KeyAcc(locales, key, |locales|);
    if key in ConflictKeys(locales) {
      var x, y :| x in acc.value && y in acc.value && x.Count? && y.Count? && x.pluralType != y.pluralType;
      assert InOpt(Count(x.pluralType), acc) && InOpt(Count(y.pluralType), acc);
      assert UsesPluralType(locales, key, x.pluralType) && UsesPluralType(locales, key, y.pluralType);
    }
    if exists p, q :: p != q && UsesPluralType(locales, key, p) && UsesPluralType(locales, key, q) {
      var p, q :| p != q && UsesPluralType(locales, key, p) && UsesPluralType(locales, key, q);
      assert InOpt(Count(p), acc) && InOpt(Count(q), acc);
      assert ConflictAt(acc);
    }
  }

  /**
   * In a successful unification, a key that uses a plural selector ends up
   * with `Count` entries of one taxonomy only and without the reserved
   * `var_count` variable; every other interpolation key is kept.
   */
  lemma UnifiedCountKey(locales: seq<Locale>, key: string, p: PluralType)
    requires 0 < |locales| && key in locales[0].keys
    requires !Fails(locales)
    requires InOpt(Count(p), KeyAcc(locales, key, |locales|))
    ensures Unified(locales)[key].Builder?
    ensures var s := Unified(locales)[key].keys;
              && Count(p) in s && VarCount !in s
              && (forall x :: x in s && x.Count? ==> x == Count(p))
              && (forall x :: x in s <==> InOpt(x, KeyAcc(locales, key, |locales|)) && x != VarCount)
  {
    var acc := KeyAcc(locales, key, |locales|);
    assert HasCount(acc.value);
    assert key !in ConflictKeys(locales);
    assert !PluralConflict(acc.value);
  }

  /**
   * The accumulator of a key depends on which locales the group holds, not on
   * their order.
   */
  lemma AccumulatorIgnoresOrder(a: seq<Locale>, b: seq<Locale>, key: string)
    requires 0 < |a| && 0 < |b| && key in a[0].keys && key in b[0].keys
    requires forall l :: l in a <==> l in b
    ensures KeyAcc(a, key, |a|) == KeyAcc(b, key, |b|)
  {
    AccumulatorIsUnion(a, key, |a|);
    AccumulatorIsUnion(b, key, |b|);
    var accA, accB := KeyAcc(a, key, |a|), KeyAcc(b, key, |b|);
    forall x ensures InOpt(x, accA) ==> InOpt(x, accB) {
      if InOpt(x, accA) {
        var i :| 0 <= i < |a| && Contributes(a[i], key, x);
        assert a[i] in b;
        var j :| 0 <= j < |b| && b[j] == a[i];
      }
    }
    forall x ensures InOpt(x, accB) ==> InOpt(x, accA) {
      if InOpt(x, accB) {
        var j :| 0 <= j < |b| && Contributes(b[j], key, x);
        assert b[j] in a;
        var i :| 0 <= i < |a| && a[i] == b[j];
      }
    }
    if accA.None? {
      forall j | 0 <= j < |b| && key in b[j].keys ensures GetKeys(b[j].keys[key]).None? {
        assert b[j] in a;
        var i :| 0 <= i < |a| && a[i] == b[j];
      }
    } else if accB.None? {
      forall i | 0 <= i < |a| && key in a[i].keys ensures GetKeys(a[i].keys[key]).None? {
        assert a[i] in b;
        var j :| 0 <= j < |b| && b[j] == a[i];
      }
    } else {
      forall x ensures x in accA.value <==> x in accB.value {
        assert InOpt(x, accA) <==> InOpt(x, accB);
      }
      assert accA.value == accB.value;
    }
  }

  /**
   * For a group whose locales agree on their keys, the outcome does not
   * depend on the order of the locales: reordering them leaves it free of key
   * mismatches, with the same conflicting keys and the same schema.
   */
  lemma UnifiedIgnoresLocaleOrder(a: seq<Locale>, b: seq<Locale>)
    requires 0 < |a| && 0 < |b|
    requires forall l :: l in a <==> l in b
    requires FirstMismatch(a).None?
    ensures FirstMismatch(b).None?
    ensures ConflictKeys(a) == ConflictKeys(b)
    ensures Unified(a) == Unified(b)
  {
    assert b[0] in a;
    var i0 :| 0 <= i0 < |a| && a[i0] == b[0];
    assert b[0].GetKeys() == a[0].GetKeys();
    forall j | 1 <= j < |b| ensures b[j].GetKeys() == b[0].GetKeys() {
      assert b[j] in a;
      var i :| 0 <= i < |a| && a[i] == b[j];
    }
    forall key | key in a[0].keys ensures KeyAcc(a, key, |a|) == KeyAcc(b, key, |b|) {
      AccumulatorIgnoresOrder(a, b, key);
    }
  }

  /**
   * Whether a group fails does not depend on the order of its locales: two
   * groups holding the same locales both fail or both succeed.
   */
  lemma FailureIgnoresLocaleOrder(a: seq<Locale>, b: seq<Locale>)
    requires 0 < |a| && 0 < |b|
    requires forall l :: l in a <==> l in b
    ensures Fails(a) <==> Fails(b)
  {
    if FirstMismatch(a).None? {
      UnifiedIgnoresLocaleOrder(a, b);
    } else if FirstMismatch(b).None? {
      UnifiedIgnoresLocaleOrder(b, a);
    }
  }

  // ---------------------------------------------------------------------------
  // All groups

  /** The input is one the unifier can be run on: no group is empty. */
  predicate Checkable(input: LocalesOrNamespaces)
  {
    match input
    case NameSpaces(namespaces) => forall n :: n in namespaces ==> 0 < |n.locales|
    case Locales(locales) => 0 < |locales|
  }

  /**
   * The per-namespace schemas, inserted in namespace order (a repeated
   * namespace key keeps the last schema computed for it).
   */
  function NamespaceKeys(namespaces: seq<Namespace>): map<string, BuildersKeysInner>
    requires forall n :: n in namespaces ==> 0 < |n.locales|
  {
    if namespaces == [] then map[]
    else
      var last := namespaces[|namespaces| - 1];
      NamespaceKeys(namespaces[..|namespaces| - 1])[last.key := Unified(last.locales)]
  }

  /**
   * The schemas map holds one entry per namespace key, namely the schema of
   * the last namespace carrying that key.
   */
  lemma {:induction false} NamespaceKeysLookup(namespaces: seq<Namespace>)
    requires forall n :: n in namespaces ==> 0 < |n.locales|
    ensures NamespaceKeys(namespaces).Keys == set n | n in namespaces :: n.key
    ensures forall i :: 0 <= i < |namespaces| &&
                        (forall j :: i < j < |namespaces| ==> namespaces[j].key != namespaces[i].key) ==>
                        NamespaceKeys(namespaces)[namespaces[i].key] == Unified(namespaces[i].locales)
  {
    if namespaces != [] {
      var init := namespaces[..|namespaces| - 1];
      var last := namespaces[|namespaces| - 1];
      NamespaceKeysLookup(init);
      assert namespaces == init + [last];
      forall i | 0 <= i < |namespaces| &&
                 (forall j :: i < j < |namespaces| ==> namespaces[j].key != namespaces[i].key)
        ensures NamespaceKeys(namespaces)[namespaces[i].key] == Unified(namespaces[i].locales)
      {
        if i < |namespaces| - 1 {
          assert namespaces[i] == init[i];
          assert forall j :: i < j < |init| ==> init[j].key != init[i].key;
        }
      }
    }
  }

  /**
   * `Locale::check_locales`: the unifier run once per namespace, labelled with
   * the namespace's name, or once for the flat locale list; the first failing
   * group aborts the whole call, and the input is handed back unchanged.
   */
  method CheckLocales(input: LocalesOrNamespaces) returns (r: Result<BuildersKeys, Error>)
    requires Checkable(input)
    ensures input.NameSpaces? ==>
              var nss := input.namespaces;
              && (r.Success? <==> forall i :: 0 <= i < |nss| ==> !Fails(nss[i].locales))
              && (r.Success? ==> r.value == NameSpacesKeys(nss, NamespaceKeys(nss)))
              && (r.Failure? ==>
                    exists i :: 0 <= i < |nss|
                      && (forall j :: 0 <= j < i ==> !Fails(nss[j].locales))
                      && Fails(nss[i].locales)
                      && IsUnifierError(nss[i].locales, Some(nss[i].key), r.error))
    ensures input.Locales? ==>
              && (r.Success? <==> !Fails(input.locales))
              && (r.Success? ==> r.value == LocalesKeys(input.locales, Unified(input.locales)))
              && (r.Failure? ==> IsUnifierError(input.locales, None, r.error))
  {
    match input
    case NameSpaces(nss) =>
      var keys := map[];
      var i := 0;
      while i < |nss|
        invariant 0 <= i <= |nss|
        invariant forall j :: 0 <= j < i ==> !Fails(nss[j].locales)
        invariant keys == NamespaceKeys(nss[..i])
      {
        assert nss[i] in nss;
        var k := CheckLocalesInner(nss[i].locales, Some(nss[i].key));
        if k.Failure? {
          return Failure(k.error);
        }
        assert nss[..i + 1][..i] == nss[..i];
        keys := keys[nss[i].key := k.value];
        i := i + 1;
      }
      assert nss[..i] == nss;
      r := Success(NameSpacesKeys(nss, keys));
    case Locales(locales) =>
      var keys := CheckLocalesInner(locales, None);
      if keys.Failure? {
        return Failure(keys.error);
      }
      r := Success(LocalesKeys(locales, keys.value));
  }
}
