/**
 * The manual processing of an answer set in `demonstrate_asp_processing`:
 * each atom's text is filed under its predicate name in an insertion-ordered
 * dict (a Python dict keeps the order in which keys were first inserted).
 * The dict is modelled as the sequence of its keys in insertion order plus a
 * map from key to the list of atoms filed under it.
 */
module AtomGrouping {

  /** Position of the first c in s, or |s| when s has no c. */
  function FirstIndexOf(s: string, c: char): (k: nat)
    ensures k <= |s|
    ensures k < |s| ==> s[k] == c
    ensures forall m :: 0 <= m < k ==> s[m] != c
  {
    if s == [] then 0
    else if s[0] == c then 0
    else 1 + FirstIndexOf(s[1..], c)
  }

  /**
   * `atom_str.split('(')[0] if '(' in atom_str else atom_str`: the text before
   * the first '(' (the first piece split() returns), or the whole atom.
   */
  function PredicateOf(atom: string): (p: string)
    ensures p <= atom
    ensures '(' !in p
    ensures '(' in atom ==> |p| < |atom| && atom[|p|] == '('
    ensures '(' !in atom ==> p == atom
  {
    if '(' in atom then atom[..FirstIndexOf(atom, '(')] else atom
  }

  /** The atoms filed under predicate p: those whose predicate is p, in input order. */
  function Select(atoms: seq<string>, p: string): seq<string> {
    if atoms == [] then []
    else
      var last := atoms[|atoms| - 1];
      Select(atoms[..|atoms| - 1], p) + (if PredicateOf(last) == p then [last] else [])
  }

  /**
   * The predicates of the atoms, each once, in order of first appearance:
   * the key order of the dict.
   */
  function FirstSeen(atoms: seq<string>): seq<string> {
    if atoms == [] then []
    else
      var prev := FirstSeen(atoms[..|atoms| - 1]);
      var p := PredicateOf(atoms[|atoms| - 1]);
      if p in prev then prev else prev + [p]
  }

  predicate NoRepeats(s: seq<string>) {
    forall a, b :: 0 <= a < b < |s| ==> s[a] != s[b]
  }

  /** Position of the first atom whose predicate is p, or |atoms| if none. */
  function FirstPos(atoms: seq<string>, p: string): (k: nat)
    ensures k <= |atoms|
    ensures k < |atoms| ==> PredicateOf(atoms[k]) == p
    ensures forall m :: 0 <= m < k ==> PredicateOf(atoms[m]) != p
  {
    if atoms == [] then 0
    else
      var init := atoms[..|atoms| - 1];
      var k := FirstPos(init, p);
      if k < |init| then k
      else if PredicateOf(atoms[|atoms| - 1]) == p then |init|
      else |atoms|
  }

  /**
   * The grouping loop: for each atom, insert its predicate as a new key with
   * an empty list if absent, then append the atom to that key's list.
   */
  method GroupByPredicate(atoms: seq<string>) returns (keys: seq<string>, groups: map<string, seq<string>>)
    ensures keys == FirstSeen(atoms)
    ensures forall p :: p in groups <==> p in keys
    ensures forall p :: p in groups ==> groups[p] == Select(atoms, p)
  {
    keys := [];
    groups := map[];
    var i := 0;
    while i < |atoms|
      invariant 0 <= i <= |atoms|
      invariant keys == FirstSeen(atoms[..i])
      invariant forall p :: p in groups <==> p in keys
      invariant forall p :: p in groups ==> groups[p] == Select(atoms[..i], p)
    {
      var atom := atoms[i];
      var pred := PredicateOf(atom);
      if pred !in groups {
        SelectUnseen(atoms[..i], pred);
        keys := keys + [pred];
        groups := groups[pred := []];
      }
      groups := groups[pred := groups[pred] + [atom]];
      Extend(atoms, i);
      i := i + 1;
    }
    assert atoms[..i] == atoms;
  }

  /** How the dict's keys and groups change when atom i is filed. */
  lemma Extend(atoms: seq<string>, i: nat)
    requires i < |atoms|
    ensures var p := PredicateOf(atoms[i]);
      FirstSeen(atoms[..i + 1]) == if p in FirstSeen(atoms[..i]) then FirstSeen(atoms[..i])
                                   else FirstSeen(atoms[..i]) + [p]
    ensures forall q :: Select(atoms[..i + 1], q)
                        == Select(atoms[..i], q) + if PredicateOf(atoms[i]) == q then [atoms[i]] else []
  {
    assert atoms[..i + 1][..i] == atoms[..i];
  }

  /** Every atom in the group of p has predicate p, and every atom with predicate p is in it. */
  lemma {:induction false} SelectMembers(atoms: seq<string>, p: string)
    ensures forall x :: x in Select(atoms, p) ==> x in atoms && PredicateOf(x) == p
    ensures forall k :: 0 <= k < |atoms| && PredicateOf(atoms[k]) == p ==> atoms[k] in Select(atoms, p)
  {
    if atoms != [] {
      var init := atoms[..|atoms| - 1];
      SelectMembers(init, p);
      assert atoms == init + [atoms[|atoms| - 1]];
    }
  }

  /** The keys have no repetitions, and they are exactly the predicates of the atoms. */
  lemma {:induction false} FirstSeenKeys(atoms: seq<string>)
    ensures NoRepeats(FirstSeen(atoms))
    ensures forall p :: p in FirstSeen(atoms) <==> exists k :: 0 <= k < |atoms| && PredicateOf(atoms[k]) == p
  {
    if atoms != [] {
      var init := atoms[..|atoms| - 1];
      FirstSeenKeys(init);
      assert atoms == init + [atoms[|atoms| - 1]];
      var prev, p := FirstSeen(init), PredicateOf(atoms[|atoms| - 1]);
      if p !in prev {
        var keys := prev + [p];
        forall a, b | 0 <= a < b < |keys| ensures keys[a] != keys[b] {
          assert keys[a] == prev[a] && prev[a] in prev;
          if b < |prev| {
            assert keys[b] == prev[b];
          }
        }
        assert FirstSeen(atoms) == keys;
      } else {
        assert FirstSeen(atoms) == prev;
      }
    }
  }

  /** A predicate that no atom has gets no atoms. */
  lemma SelectUnseen(atoms: seq<string>, p: string)
    requires p !in FirstSeen(atoms)
    ensures Select(atoms, p) == []
  {
    FirstSeenKeys(atoms);
    SelectMembers(atoms, p);
  }

  /**
   * Partition: an atom is in the group of predicate p exactly when p is its
   * predicate, so it lies in its own predicate's group and in no other.
   */
  lemma AtomInExactlyItsGroup(atoms: seq<string>, k: nat, p: string)
    requires k < |atoms|
    ensures atoms[k] in Select(atoms, p) <==> p == PredicateOf(atoms[k])
  {
    SelectMembers(atoms, p);
  }

  /** Keys come in order of first appearance in the input. */
  lemma {:induction false} KeysInFirstAppearanceOrder(atoms: seq<string>, a: nat, b: nat)
    requires a < b < |FirstSeen(atoms)|
    ensures FirstPos(atoms, FirstSeen(atoms)[a]) < FirstPos(atoms, FirstSeen(atoms)[b]) < |atoms|
  {
    var keys := FirstSeen(atoms);
    var init := atoms[..|atoms| - 1];
    var prev := FirstSeen(init);
    var p := PredicateOf(atoms[|atoms| - 1]);
    FirstPosKeyed(init, keys[a]);
    if keys == prev {
      FirstPosKeyed(init, keys[b]);
      KeysInFirstAppearanceOrder(init, a, b);
      FirstPosExtend(atoms, keys[a]);
      FirstPosExtend(atoms, keys[b]);
    } else {
      assert keys == prev + [p];
      FirstPosExtend(atoms, keys[a]);
      if b < |prev| {
        FirstPosKeyed(init, keys[b]);
        KeysInFirstAppearanceOrder(init, a, b);
        FirstPosExtend(atoms, keys[b]);
      } else {
        assert keys[b] == p && p !in prev;
        FirstPosKeyed(init, p);
      }
    }
  }

  /** A key of the dict first appears inside the input. */
  lemma FirstPosKeyed(atoms: seq<string>, p: string)
    ensures p in FirstSeen(atoms) <==> FirstPos(atoms, p) < |atoms|
  {
    FirstSeenKeys(atoms);
    if FirstPos(atoms, p) < |atoms| {
      var k := FirstPos(atoms, p);
      assert PredicateOf(atoms[k]) == p;
    }
  }

  /** Appending one atom leaves the first position of an already seen predicate unchanged. */
  lemma FirstPosExtend(atoms: seq<string>, p: string)
    requires atoms != []
    ensures FirstPos(atoms[..|atoms| - 1], p) < |atoms| - 1 ==>
              FirstPos(atoms, p) == FirstPos(atoms[..|atoms| - 1], p)
  {
  }

  /** Sum of the group sizes over the given keys. */
  function GroupedCount(keys: seq<string>, atoms: seq<string>): nat {
    if keys == [] then 0
    else GroupedCount(keys[..|keys| - 1], atoms) + |Select(atoms, keys[|keys| - 1])|
  }

  /** The groups together hold every atom exactly once: their sizes add up to the input's. */
  lemma {:induction false} GroupSizesSum(atoms: seq<string>)
    ensures GroupedCount(FirstSeen(atoms), atoms) == |atoms|
  {
    if atoms != [] {
      var init := atoms[..|atoms| - 1];
      var last := atoms[|atoms| - 1];
      assert atoms == init + [last];
      var p := PredicateOf(last);
      var prev := FirstSeen(init);
      GroupSizesSum(init);
      GroupedCountStep(prev, init, last);
      // GroupedCount(prev, atoms) == |init| + multiset(prev)[p]
      if p in prev {
        FirstSeenKeys(init);
        DistinctOnce(prev, p);
        assert FirstSeen(atoms) == prev;
      } else {
        var keys := prev + [p];
        assert FirstSeen(atoms) == keys;
        assert keys[..|keys| - 1] == prev;
        SelectUnseen(init, p);
        assert Select(atoms, p) == [last];
        assert GroupedCount(keys, atoms) == GroupedCount(prev, atoms) + 1;
      }
    }
  }

  /** Adding one atom adds one to the size of its predicate's group, counted once per occurrence of the key. */
  lemma {:induction false} GroupedCountStep(keys: seq<string>, init: seq<string>, last: string)
    ensures GroupedCount(keys, init + [last]) == GroupedCount(keys, init) + multiset(keys)[PredicateOf(last)]
  {
    if keys != [] {
      var ks := keys[..|keys| - 1];
      GroupedCountStep(ks, init, last);
      assert keys == ks + [keys[|keys| - 1]];
      assert (init + [last])[..|init|] == init;
    }
  }

  /** In a sequence without repetitions, a member occurs once. */
  lemma {:induction false} DistinctOnce(keys: seq<string>, p: string)
    requires NoRepeats(keys)
    requires p in keys
    ensures multiset(keys)[p] == 1
  {
    var ks := keys[..|keys| - 1];
    var last := keys[|keys| - 1];
    assert keys == ks + [last];
    if last == p {
      assert p !in ks;
      assert multiset(ks)[p] == 0;
    } else {
      DistinctOnce(ks, p);
    }
  }
}
