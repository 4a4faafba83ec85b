/**
 The extends closure of the system classes, and the two readings of a feature toggle
 over it: the classes a feature archives and the features that gate a class. The seeded
 tables are parameters.
 */
module ClassClosure {
  import opened Text
  import opened Wrappers

  type Extends = map<string, seq<string>>

  datatype FeatureSpec = FeatureSpec(feature: string, baseClass: string)

  // ----- the closure -----

  function Parents(ext: Extends, name: string): seq<string> {
    if name in ext then ext[name] else []
  }

  /** `b` lies n + 1 extends steps above `a`. */
  ghost predicate Reaches(ext: Extends, a: string, b: string, n: nat)
    decreases n
  {
    if n == 0 then b in Parents(ext, a) else exists c :: c in Parents(ext, a) && Reaches(ext, c, b, n - 1)
  }

  /** The transitive closure of extends. */
  ghost predicate IsAncestor(ext: Extends, a: string, b: string) {
    exists n: nat :: Reaches(ext, a, b, n)
  }

  lemma {:induction false} ReachesOn(ext: Extends, a: string, b: string, c: string, m: nat, n: nat)
    requires Reaches(ext, a, b, m) && Reaches(ext, b, c, n)
    ensures Reaches(ext, a, c, m + n + 1)
    decreases m
  {
    if m > 0 {
      var p :| p in Parents(ext, a) && Reaches(ext, p, b, m - 1);
      ReachesOn(ext, p, b, c, m - 1, n);
    }
  }

  lemma AncestorTransitive(ext: Extends, a: string, b: string, c: string)
    requires IsAncestor(ext, a, b) && IsAncestor(ext, b, c)
    ensures IsAncestor(ext, a, c)
  {
    var m: nat :| Reaches(ext, a, b, m);
    var n: nat :| Reaches(ext, b, c, n);
    ReachesOn(ext, a, b, c, m, n);
  }

  lemma ParentIsAncestor(ext: Extends, a: string, b: string)
    requires b in Parents(ext, a)
    ensures IsAncestor(ext, a, b)
  {
    assert Reaches(ext, a, b, 0);
  }

  lemma GrandparentIsAncestor(ext: Extends, a: string, b: string, c: string)
    requires IsAncestor(ext, a, b) && c in Parents(ext, b)
    ensures IsAncestor(ext, a, c)
  {
    ParentIsAncestor(ext, b, c);
    AncestorTransitive(ext, a, b, c);
  }

  /** A walk up the table: each class is listed among those the one before it extends. */
  ghost predicate Climbs(ext: Extends, walk: seq<string>) {
    forall i :: 0 <= i < |walk| - 1 ==> walk[i] in ext && walk[i + 1] in ext[walk[i]]
  }

  lemma {:induction false} ClimbReaches(ext: Extends, walk: seq<string>)
    requires |walk| >= 2 && Climbs(ext, walk)
    ensures Reaches(ext, walk[0], walk[|walk| - 1], |walk| - 2)
    decreases |walk|
  {
    if |walk| > 2 {
      var rest := walk[1..];
      assert forall i :: 0 <= i < |rest| ==> rest[i] == walk[i + 1];
      ClimbReaches(ext, rest);
      assert walk[0 + 1] in ext[walk[0]];
      assert rest[0] in Parents(ext, walk[0]) && Reaches(ext, rest[0], walk[|walk| - 1], |walk| - 3);
    } else {
      assert walk[0 + 1] in ext[walk[0]];
    }
  }

  lemma {:induction false} ReachedByClimb(ext: Extends, a: string, b: string, n: nat) returns (walk: seq<string>)
    requires Reaches(ext, a, b, n)
    ensures |walk| >= 2 && walk[0] == a && walk[|walk| - 1] == b && Climbs(ext, walk)
    decreases n
  {
    if n == 0 {
      walk := [a, b];
    } else {
      var c :| c in Parents(ext, a) && Reaches(ext, c, b, n - 1);
      var rest := ReachedByClimb(ext, c, b, n - 1);
      walk := [a] + rest;
      forall i | 0 <= i < |walk| - 1 ensures walk[i] in ext && walk[i + 1] in ext[walk[i]] {
        if i > 0 { assert walk[i] == rest[i - 1] && walk[i + 1] == rest[i - 1 + 1]; }
      }
    }
  }

  /** The ancestors of a class are where walks up the table from it lead. */
  lemma AncestorsClimbed(ext: Extends, a: string, b: string)
    ensures IsAncestor(ext, a, b) <==>
            exists walk :: |walk| >= 2 && walk[0] == a && walk[|walk| - 1] == b && Climbs(ext, walk)
  {
    hide Climbs, Reaches;
    if n: nat :| Reaches(ext, a, b, n) { var walk := ReachedByClimb(ext, a, b, n); }
    if walk :| |walk| >= 2 && walk[0] == a && walk[|walk| - 1] == b && Climbs(ext, walk) { ClimbReaches(ext, walk); }
  }

  ghost predicate HoldsParents(ext: Extends, a: string, found: seq<string>) {
    forall p :: p in Parents(ext, a) ==> p in found
  }

  /** A list with the parents of everything in it holds everything that can be reached. */
  lemma {:induction false} ClosedHoldsAll(ext: Extends, a: string, found: seq<string>, b: string, n: nat)
    requires HoldsParents(ext, a, found) && forall c :: c in found ==> HoldsParents(ext, c, found)
    requires Reaches(ext, a, b, n)
    ensures b in found
    decreases n
  {
    if n > 0 {
      var c :| c in Parents(ext, a) && Reaches(ext, c, b, n - 1);
      ClosedHoldsAll(ext, c, found, b, n - 1);
    }
  }

  /** Every class named as a parent somewhere. */
  ghost function AllParents(ext: Extends): set<string> {
    set c, p | c in ext && p in ext[c] :: p
  }

  ghost predicate InTable(ext: Extends, names: seq<string>) {
    forall b :: b in names ==> b in AllParents(ext)
  }

  lemma ParentsInTable(ext: Extends, name: string)
    ensures InTable(ext, Parents(ext, name))
  {
  }

  /** The classes found from a stack of classes to look at, last first, and from those found before. */
  ghost function Found(ext: Extends, stack: seq<string>, seen: seq<string>): seq<string>
    requires InTable(ext, stack)
    decreases AllParents(ext) - (set b | b in seen), |stack|
  {
    if stack == [] then seen
    else
      var rest, current := stack[..|stack| - 1], stack[|stack| - 1];
      if current in seen then Found(ext, rest, seen)
      else
        SeenMore(ext, seen, current);
        ParentsInTable(ext, current);
        Found(ext, rest + Parents(ext, current), seen + [current])
  }

  lemma SeenMore(ext: Extends, seen: seq<string>, current: string)
    requires current in AllParents(ext) && current !in seen
    ensures AllParents(ext) - (set b | b in seen + [current]) < AllParents(ext) - (set b | b in seen)
  {
    assert (set b | b in seen + [current]) == (set b | b in seen) + {current};
    assert current in AllParents(ext) - (set b | b in seen);
  }

  /** The ancestors in the order the worklist finds them. */
  ghost function AncestorOrder(ext: Extends, name: string): seq<string> {
    ParentsInTable(ext, name);
    Found(ext, Parents(ext, name), [])
  }

  /** What stands later on the stack is done with before what stands earlier. */
  lemma {:induction false} StackSplits(ext: Extends, a: seq<string>, b: seq<string>, seen: seq<string>)
    requires InTable(ext, a) && InTable(ext, b)
    ensures InTable(ext, a + b) && Found(ext, a + b, seen) == Found(ext, a, Found(ext, b, seen))
    decreases AllParents(ext) - (set c | c in seen), |b|
  {
    if b == [] {
      assert a + b == a;
    } else {
      var rest, current := b[..|b| - 1], b[|b| - 1];
      assert (a + b)[..|a + b| - 1] == a + rest;
      if current in seen {
        StackSplits(ext, a, rest, seen);
      } else {
        SeenMore(ext, seen, current);
        ParentsInTable(ext, current);
        StackSplits(ext, a, rest + Parents(ext, current), seen + [current]);
        assert a + rest + Parents(ext, current) == a + (rest + Parents(ext, current));
      }
    }
  }

  /** The order is depth first: a class not seen before, then all that is found above it, then the rest. */
  lemma DepthFirst(ext: Extends, rest: seq<string>, name: string, seen: seq<string>)
    requires InTable(ext, rest + [name]) && name !in seen
    ensures InTable(ext, rest) && InTable(ext, Parents(ext, name))
    ensures Found(ext, rest + [name], seen) == Found(ext, rest, Found(ext, Parents(ext, name), seen + [name]))
  {
    ParentsInTable(ext, name);
    assert InTable(ext, rest) && (rest + [name])[..|rest|] == rest;
    StackSplits(ext, rest, Parents(ext, name), seen + [name]);
  }

  /**
   The worklist: its result holds exactly the transitive ancestors, each once, and it
   ends on every extends map, cycles included.
   */
  method SystemClassAncestors(ext: Extends, name: string) returns (ancestors: seq<string>)
    ensures forall b :: b in ancestors <==> IsAncestor(ext, name, b)
    ensures NoDuplicates(ancestors) && ancestors == AncestorOrder(ext, name)
  {
    hide IsAncestor, Reaches, AllParents, Parents;
    ancestors := [];
    var stack := Parents(ext, name);
    ParentsInTable(ext, name);
    forall b | b in stack ensures IsAncestor(ext, name, b) { ParentIsAncestor(ext, name, b); }
    while stack != []
      invariant NoDuplicates(ancestors)
      invariant forall b :: b in stack || b in ancestors ==> b in AllParents(ext) && IsAncestor(ext, name, b)
      invariant HoldsParents(ext, name, ancestors + stack)
      invariant forall b :: b in ancestors ==> HoldsParents(ext, b, ancestors + stack)
      invariant InTable(ext, stack) && Found(ext, stack, ancestors) == AncestorOrder(ext, name)
      decreases AllParents(ext) - (set b | b in ancestors), |stack|
    {
      var current := stack[|stack| - 1];
      ghost var before := ancestors + stack;
      stack := stack[..|stack| - 1];
      assert forall b :: b in before ==> b in ancestors + stack || b == current;
      if current in ancestors { continue; }
      SeenMore(ext, ancestors, current);
      ancestors := ancestors + [current];
      ParentsInTable(ext, current);
      forall b | b in Parents(ext, current) ensures IsAncestor(ext, name, b) && b in AllParents(ext) {
        GrandparentIsAncestor(ext, name, current, b);
      }
      stack := stack + Parents(ext, current);
      assert forall b :: b in before ==> b in ancestors + stack;
    }
    assert ancestors + stack == ancestors;
    forall b | IsAncestor(ext, name, b) ensures b in ancestors { WorklistComplete(ext, name, ancestors, b); }
  }

  lemma WorklistComplete(ext: Extends, name: string, found: seq<string>, b: string)
    requires HoldsParents(ext, name, found) && forall c :: c in found ==> HoldsParents(ext, c, found)
    requires IsAncestor(ext, name, b)
    ensures b in found
  {
    var n: nat :| Reaches(ext, name, b, n);
    ClosedHoldsAll(ext, name, found, b, n);
  }

  // ----- features -----

  /** The last feature that names the class as its base. */
  function FeatureForBaseClass(specs: seq<FeatureSpec>, name: string): Option<string> {
    if specs == [] then None
    else if specs[|specs| - 1].baseClass == name then Some(specs[|specs| - 1].feature)
    else FeatureForBaseClass(specs[..|specs| - 1], name)
  }

  ghost predicate SelfOrAncestor(ext: Extends, name: string, b: string) {
    b == name || IsAncestor(ext, name, b)
  }

  /** The feature's off state hides the class. */
  ghost predicate Gates(ext: Extends, specs: seq<FeatureSpec>, feature: string, name: string) {
    exists b :: SelfOrAncestor(ext, name, b) && FeatureForBaseClass(specs, b) == Some(feature)
  }

  /** The classes below the base, in the order of `all`. */
  ghost function Below(ext: Extends, all: seq<string>, base: string): seq<string> {
    if all == [] then []
    else
      var init, last := Below(ext, all[..|all| - 1], base), all[|all| - 1];
      if last != base && IsAncestor(ext, last, base) then init + [last] else init
  }

  /** A feature's class set: the base, then its transitive extends-children sorted. */
  ghost function Family(ext: Extends, all: seq<string>, base: string): seq<string> {
    [base] + SortStrings(Below(ext, all, base))
  }

  lemma {:induction false} BelowExact(ext: Extends, all: seq<string>, base: string)
    ensures forall c :: c in Below(ext, all, base) <==> c in all && c != base && IsAncestor(ext, c, base)
    ensures NoDuplicates(all) ==> NoDuplicates(Below(ext, all, base))
  {
    hide IsAncestor;
    if all != [] { BelowExact(ext, all[..|all| - 1], base); }
  }

  lemma FamilyExact(ext: Extends, all: seq<string>, base: string)
    ensures forall c :: c in all ==> (c in Family(ext, all, base) <==> SelfOrAncestor(ext, c, base))
    ensures NoDuplicates(all) ==> NoDuplicates(Family(ext, all, base))
    ensures Family(ext, all, base)[0] == base && Ascending(Family(ext, all, base)[1..])
  {
    hide IsAncestor;
    var below := Below(ext, all, base);
    BelowExact(ext, all, base);
    SortMembers(below);
    SortAscends(below);
    var family := Family(ext, all, base);
    assert family[1..] == SortStrings(below);
    if NoDuplicates(all) {
      SortDistinct(below);
      forall i, j | 0 <= i < j < |family| ensures family[i] != family[j] {
        assert family[j] == SortStrings(below)[j - 1];
        if i == 0 {
          assert family[j] in SortStrings(below);
        } else {
          assert StringLess(SortStrings(below)[i - 1], SortStrings(below)[j - 1]);
          StringOrderTotal(family[i], family[j]);
        }
      }
    }
  }

  ghost predicate DistinctBases(specs: seq<FeatureSpec>) {
    forall i, j :: 0 <= i < j < |specs| ==> specs[i].baseClass != specs[j].baseClass
  }

  /** The keys of the feature table are keys of one object. */
  ghost predicate DistinctFeatures(specs: seq<FeatureSpec>) {
    forall i, j :: 0 <= i < j < |specs| ==> specs[i].feature != specs[j].feature
  }

  lemma {:induction false} LookupFinds(specs: seq<FeatureSpec>, name: string)
    ensures match FeatureForBaseClass(specs, name)
            case None => forall s :: s in specs ==> s.baseClass != name
            case Some(f) => FeatureSpec(f, name) in specs
  {
    if specs != [] { LookupFinds(specs[..|specs| - 1], name); }
  }

  /** The k-th feature names the class as its base, and none after it does. */
  predicate NamesLast(specs: seq<FeatureSpec>, name: string, f: string, k: int) {
    0 <= k < |specs| && specs[k] == FeatureSpec(f, name) && forall m :: k < m < |specs| ==> specs[m].baseClass != name
  }

  /** Of the features that name one base, the lookup keeps the last. */
  lemma {:induction false} LookupKeepsLast(specs: seq<FeatureSpec>, name: string, f: string)
    ensures FeatureForBaseClass(specs, name) == Some(f) <==> exists k :: NamesLast(specs, name, f, k)
  {
    if specs != [] {
      var n := |specs| - 1;
      LookupKeepsLast(specs[..n], name, f);
      assert specs == specs[..n] + [specs[n]];
      if specs[n].baseClass == name {
        if specs[n].feature == f { assert NamesLast(specs, name, f, n); }
      } else {
        forall k ensures NamesLast(specs, name, f, k) <==> NamesLast(specs[..n], name, f, k) {
          LastOfMore(specs[..n], specs[n], name, f, k);
        }
      }
    }
  }

  lemma LastOfMore(init: seq<FeatureSpec>, s: FeatureSpec, name: string, f: string, k: int)
    requires s.baseClass != name
    ensures NamesLast(init + [s], name, f, k) <==> NamesLast(init, name, f, k)
  {
    assert forall m :: 0 <= m < |init| ==> (init + [s])[m] == init[m];
  }

  /** Archiving and gating agree: a class is in the feature's family exactly when the feature gates it. */
  ghost predicate Dual(ext: Extends, all: seq<string>, specs: seq<FeatureSpec>) {
    forall s, c :: s in specs && c in all ==> (c in Family(ext, all, s.baseClass) <==> Gates(ext, specs, s.feature, c))
  }

  lemma LookupOfSpec(specs: seq<FeatureSpec>, s: FeatureSpec)
    requires DistinctBases(specs) && s in specs
    ensures FeatureForBaseClass(specs, s.baseClass) == Some(s.feature)
  {
    LookupFinds(specs, s.baseClass);
    var f := FeatureForBaseClass(specs, s.baseClass).value;
    var i :| 0 <= i < |specs| && specs[i] == s;
    var j :| 0 <= j < |specs| && specs[j] == FeatureSpec(f, s.baseClass);
    assert i == j;
  }

  lemma BaseOfFeature(specs: seq<FeatureSpec>, s: FeatureSpec, b: string)
    requires DistinctFeatures(specs) && s in specs && FeatureForBaseClass(specs, b) == Some(s.feature)
    ensures b == s.baseClass
  {
    LookupFinds(specs, b);
    var i :| 0 <= i < |specs| && specs[i] == s;
    var j :| 0 <= j < |specs| && specs[j] == FeatureSpec(s.feature, b);
    assert i == j;
  }

  /** The two readings agree on every class exactly when no two features share a base class. */
  lemma DualityExactly(ext: Extends, all: seq<string>, specs: seq<FeatureSpec>)
    requires DistinctFeatures(specs) && forall s :: s in specs ==> s.baseClass in all
    ensures Dual(ext, all, specs) <==> DistinctBases(specs)
  {
    hide IsAncestor, Family, FeatureForBaseClass;
    if DistinctBases(specs) {
      forall s, c | s in specs && c in all
        ensures c in Family(ext, all, s.baseClass) <==> Gates(ext, specs, s.feature, c)
      {
        FamilyExact(ext, all, s.baseClass);
        LookupOfSpec(specs, s);
        if Gates(ext, specs, s.feature, c) {
          var b :| SelfOrAncestor(ext, c, b) && FeatureForBaseClass(specs, b) == Some(s.feature);
          BaseOfFeature(specs, s, b);
        }
      }
    }
    if !DistinctBases(specs) {
      var i, j :| 0 <= i < j < |specs| && specs[i].baseClass == specs[j].baseClass;
      LookupFinds(specs, specs[i].baseClass);
      SharedBaseBreaks(ext, all, specs, i, j);
    }
  }

  /** Of two features with one base, the lookup forgets one: it archives the base without gating it. */
  lemma SharedBaseBreaks(ext: Extends, all: seq<string>, specs: seq<FeatureSpec>, i: nat, j: nat)
    requires DistinctFeatures(specs) && forall s :: s in specs ==> s.baseClass in all
    requires i < j < |specs| && specs[i].baseClass == specs[j].baseClass
    ensures !Dual(ext, all, specs)
  {
    hide IsAncestor, Family, FeatureForBaseClass, Gates;
    var base := specs[i].baseClass;
    FamilyExact(ext, all, base);
    var lost := if FeatureForBaseClass(specs, base) == Some(specs[i].feature) then specs[j] else specs[i];
    assert lost in specs && base in Family(ext, all, lost.baseClass);
    LostDoesNotGate(ext, specs, lost, base);
  }

  lemma LostDoesNotGate(ext: Extends, specs: seq<FeatureSpec>, s: FeatureSpec, c: string)
    requires DistinctFeatures(specs) && s in specs && FeatureForBaseClass(specs, s.baseClass) != Some(s.feature)
    ensures !Gates(ext, specs, s.feature, c)
  {
    hide IsAncestor, FeatureForBaseClass;
    if Gates(ext, specs, s.feature, c) {
      var b :| SelfOrAncestor(ext, c, b) && FeatureForBaseClass(specs, b) == Some(s.feature);
      BaseOfFeature(specs, s, b);
    }
  }

  /** A class is gated by whatever gates a class it extends. */
  lemma GatingIsInherited(ext: Extends, specs: seq<FeatureSpec>, feature: string, parent: string, child: string)
    requires IsAncestor(ext, child, parent) && Gates(ext, specs, feature, parent)
    ensures Gates(ext, specs, feature, child)
  {
    hide IsAncestor;
    var b :| SelfOrAncestor(ext, parent, b) && FeatureForBaseClass(specs, b) == Some(feature);
    if b != parent { AncestorTransitive(ext, child, parent, b); }
    assert SelfOrAncestor(ext, child, b);
  }

  /** The features the classes are bases of, in the order of the classes, none twice. */
  function FeaturesOf(specs: seq<FeatureSpec>, names: seq<string>): seq<string> {
    if names == [] then []
    else
      var init, feature := FeaturesOf(specs, names[..|names| - 1]), FeatureForBaseClass(specs, names[|names| - 1]);
      if feature.Some? && feature.value !in init then init + [feature.value] else init
  }

  lemma {:induction false} FeaturesMembers(specs: seq<FeatureSpec>, names: seq<string>)
    ensures forall f :: f in FeaturesOf(specs, names) <==>
              exists k :: 0 <= k < |names| && FeatureForBaseClass(specs, names[k]) == Some(f)
    ensures NoDuplicates(FeaturesOf(specs, names))
  {
    hide FeatureForBaseClass;
    if names != [] {
      var init, n := names[..|names| - 1], |names| - 1;
      FeaturesMembers(specs, init);
      forall f ensures f in FeaturesOf(specs, names) <==>
                 exists k :: 0 <= k < |names| && FeatureForBaseClass(specs, names[k]) == Some(f) {
        if k :| 0 <= k < |names| && FeatureForBaseClass(specs, names[k]) == Some(f) {
          assert k < n ==> init[k] == names[k];
        }
        if f in FeaturesOf(specs, init) {
          var k :| 0 <= k < n && FeatureForBaseClass(specs, init[k]) == Some(f);
          assert names[k] == init[k];
        }
      }
    }
  }

  /** A feature stands before another when its first class stands before every class of the other. */
  lemma {:induction false} FeaturesInOrder(specs: seq<FeatureSpec>, names: seq<string>, i: nat, j: nat) returns (k: nat)
    requires i < j < |FeaturesOf(specs, names)|
    ensures k < |names| && FeatureForBaseClass(specs, names[k]) == Some(FeaturesOf(specs, names)[i])
    ensures forall m :: 0 <= m <= k ==> FeatureForBaseClass(specs, names[m]) != Some(FeaturesOf(specs, names)[j])
  {
    hide FeatureForBaseClass;
    var init := names[..|names| - 1];
    var before := FeaturesOf(specs, init);
    FeaturesMembers(specs, init);
    if j < |before| {
      k := FeaturesInOrder(specs, init, i, j);
    } else {
      assert before[i] in before;
      k :| 0 <= k < |init| && FeatureForBaseClass(specs, init[k]) == Some(before[i]);
    }
    assert forall m :: 0 <= m < |init| ==> names[m] == init[m];
  }

  // ----- the computations -----

  /** The class's own feature first, then those of its ancestors as the worklist finds them, none twice. */
  method GatingFeaturesForClass(ext: Extends, specs: seq<FeatureSpec>, name: string) returns (gating: seq<string>)
    ensures gating == FeaturesOf(specs, [name] + AncestorOrder(ext, name))
    ensures forall f :: f in gating <==> Gates(ext, specs, f, name)
    ensures NoDuplicates(gating)
    ensures FeatureForBaseClass(specs, name).Some? ==>
              gating != [] && gating[0] == FeatureForBaseClass(specs, name).value
  {
    hide IsAncestor, FeatureForBaseClass, AncestorOrder, FeaturesOf, Gates, NoDuplicates;
    gating := [];
    var own := FeatureForBaseClass(specs, name);
    if own.Some? { gating := gating + [own.value]; }
    var ancestors := SystemClassAncestors(ext, name);
    ghost var names := [name] + ancestors;
    OneFeature(specs, name);
    assert names[..1] == [name];
    for n := 0 to |ancestors|
      invariant gating == FeaturesOf(specs, names[..n + 1])
      invariant own.Some? ==> gating != [] && gating[0] == own.value
    {
      NextFeature(specs, names, n + 1);
      var feature := FeatureForBaseClass(specs, ancestors[n]);
      if feature.Some? && feature.value !in gating { gating := gating + [feature.value]; }
    }
    assert names[..|names|] == names;
    FeaturesMembers(specs, names);
    forall f ensures f in gating <==> Gates(ext, specs, f, name) { GatedByOrder(ext, specs, name, ancestors, f); }
  }

  lemma NextFeature(specs: seq<FeatureSpec>, names: seq<string>, n: nat)
    requires n < |names|
    ensures var init, feature := FeaturesOf(specs, names[..n]), FeatureForBaseClass(specs, names[n]);
            FeaturesOf(specs, names[..n + 1]) ==
            if feature.Some? && feature.value !in init then init + [feature.value] else init
  {
    hide FeatureForBaseClass;
    assert names[..n + 1][..n] == names[..n];
  }

  lemma OneFeature(specs: seq<FeatureSpec>, name: string)
    ensures FeaturesOf(specs, [name]) ==
            match FeatureForBaseClass(specs, name) case None => [] case Some(f) => [f]
  {
    hide FeatureForBaseClass;
    assert [name][..0] == [] && FeaturesOf(specs, []) == [];
  }

  lemma GatedByOrder(ext: Extends, specs: seq<FeatureSpec>, name: string, ancestors: seq<string>, f: string)
    requires forall b :: b in ancestors <==> IsAncestor(ext, name, b)
    ensures var names := [name] + ancestors;
            Gates(ext, specs, f, name) <==>
            exists k :: 0 <= k < |names| && FeatureForBaseClass(specs, names[k]) == Some(f)
  {
    hide IsAncestor, FeatureForBaseClass;
    var names := [name] + ancestors;
    if k :| 0 <= k < |names| && FeatureForBaseClass(specs, names[k]) == Some(f) {
      assert names[k] == name || names[k] in ancestors;
      assert SelfOrAncestor(ext, name, names[k]);
    }
    if b :| SelfOrAncestor(ext, name, b) && FeatureForBaseClass(specs, b) == Some(f) {
      assert b in names;
    }
  }

  /** The table of families, filled on first use and kept. */
  class FamilyTable {
    const ext: Extends
    const all: seq<string>
    const specs: seq<FeatureSpec>
    var familyCache: Option<map<string, seq<string>>>

    ghost predicate IsFamilyMap(families: map<string, seq<string>>, n: nat)
      requires n <= |specs|
    {
      && (forall f :: f in families <==> exists i :: 0 <= i < n && specs[i].feature == f)
      && forall i :: 0 <= i < n ==>
           specs[i].feature in families && families[specs[i].feature] == Family(ext, all, specs[i].baseClass)
    }

    ghost predicate Valid()
      reads this
    {
      DistinctFeatures(specs) && (familyCache.Some? ==> IsFamilyMap(familyCache.value, |specs|))
    }

    constructor (ext: Extends, all: seq<string>, specs: seq<FeatureSpec>)
      requires DistinctFeatures(specs)
      ensures Valid() && familyCache.None? && this.ext == ext && this.all == all && this.specs == specs
    {
      this.ext, this.all, this.specs, familyCache := ext, all, specs, None;
    }

    method ClassesBelow(base: string) returns (children: seq<string>)
      ensures children == Below(ext, all, base)
    {
      hide IsAncestor;
      children := [];
      assert all[..0] == [];
      for n := 0 to |all|
        invariant children == Below(ext, all[..n], base)
      {
        var name := all[n];
        assert all[..n + 1][..n] == all[..n];
        var ancestors := SystemClassAncestors(ext, name);
        if name != base && base in ancestors { children := children + [name]; }
      }
      assert all[..|all|] == all;
    }

    lemma NoFamilies()
      ensures IsFamilyMap(map[], 0)
    {
    }

    lemma OneFamilyMore(families: map<string, seq<string>>, n: nat)
      requires n < |specs| && DistinctFeatures(specs) && IsFamilyMap(families, n)
      ensures IsFamilyMap(families[specs[n].feature := Family(ext, all, specs[n].baseClass)], n + 1)
    {
      hide Family;
    }

    method FamilyMap() returns (families: map<string, seq<string>>)
      requires Valid()
      modifies this
      ensures Valid() && familyCache == Some(families)
      ensures IsFamilyMap(families, |specs|)
    {
      if familyCache.Some? { return familyCache.value; }
      hide IsFamilyMap, IsAncestor, FeatureForBaseClass;
      families := map[];
      NoFamilies();
      for n := 0 to |specs|
        invariant IsFamilyMap(families, n)
        invariant Valid()
      {
        var spec := specs[n];
        var children := ClassesBelow(spec.baseClass);
        OneFamilyMore(families, n);
        families := families[spec.feature := [spec.baseClass] + SortStrings(children)];
      }
      familyCache := Some(families);
    }

    method FamilyClassNames(spec: FeatureSpec) returns (names: seq<string>)
      requires Valid() && spec in specs
      modifies this
      ensures Valid() && names == Family(ext, all, spec.baseClass)
    {
      var families := FamilyMap();
      names := families[spec.feature];
    }
  }
}
