/** How generated code names a message type: extern paths first, else steps relative to the service module. */
module RelativeTypes {
  import opened ExternPaths
  import opened Text

  // ----- module paths -----

  datatype PathStep = Super | Name(ident: string)

  function Supers(n: nat): seq<PathStep>
  {
    if n == 0 then [] else [Super] + Supers(n - 1)
  }

  function Names(parts: seq<string>): seq<PathStep>
  {
    if parts == [] then [] else [Name(parts[0])] + Names(parts[1..])
  }

  /** Where a path leads from a module; None above the root. */
  function Follow(place: seq<string>, steps: seq<PathStep>): Option<seq<string>>
    decreases |steps|
  {
    if steps == [] then Some(place)
    else match steps[0]
      case Super => if place == [] then None else Follow(place[..|place| - 1], steps[1..])
      case Name(ident) => Follow(place + [ident], steps[1..])
  }

  lemma {:induction false} FollowNames(place: seq<string>, parts: seq<string>)
    ensures Follow(place, Names(parts)) == Some(place + parts)
    decreases |parts|
  {
    if parts == [] {
      assert place + parts == place;
    } else {
      var steps := Names(parts);
      assert steps[0] == Name(parts[0]) && steps[1..] == Names(parts[1..]);
      assert Follow(place, steps) == Follow(place + [parts[0]], steps[1..]);
      FollowNames(place + [parts[0]], parts[1..]);
      assert place + [parts[0]] + parts[1..] == place + parts;
    }
  }

  lemma {:induction false} FollowPath(place: seq<string>, k: nat, parts: seq<string>)
    ensures Follow(place, Supers(k) + Names(parts)) ==
            if k <= |place| then Some(place[..|place| - k] + parts) else None
    decreases k
  {
    var steps := Supers(k) + Names(parts);
    if k == 0 {
      assert steps == Names(parts) && place[..|place|] == place;
      FollowNames(place, parts);
    } else if place != [] {
      var n := |place| - 1;
      assert steps[1..] == Supers(k - 1) + Names(parts);
      FollowPath(place[..n], k - 1, parts);
      assert k <= |place| ==> place[..n][..n - (k - 1)] == place[..|place| - k];
    }
  }

  // ----- relative paths -----

  /** The parts of a dotted name, empty ones dropped. */
  function Parts(dotted: string): seq<string>
  {
    NonEmpty(Split(dotted, '.'))
  }

  function CommonPrefix(a: seq<string>, b: seq<string>): (n: nat)
    ensures n <= |a| && n <= |b| && a[..n] == b[..n]
    ensures n < |a| && n < |b| ==> a[n] != b[n]
  {
    if a == [] || b == [] || a[0] != b[0] then 0
    else
      var n := CommonPrefix(a[1..], b[1..]);
      assert a[..n + 1] == [a[0]] + a[1..][..n] && b[..n + 1] == [b[0]] + b[1..][..n];
      n + 1
  }

  /** The loop that counts the common prefix. */
  method CountCommon(current: seq<string>, target: seq<string>) returns (common: nat)
    ensures common == CommonPrefix(current, target)
  {
    common := 0;
    assert current[0..] == current && target[0..] == target;
    for i := 0 to |current|
      invariant common == i <= |target|
      invariant CommonPrefix(current, target) == i + CommonPrefix(current[i..], target[i..])
    {
      if i < |target| && current[i] == target[i] {
        assert current[i..][1..] == current[i + 1..] && target[i..][1..] == target[i + 1..];
        common := common + 1;
      } else {
        break;
      }
    }
  }

  /** The loops that extend the token stream: climb out of the service module and the package, spell what remains. */
  method SpellPath(superCount: nat, names: seq<string>) returns (steps: seq<PathStep>)
    ensures steps == Supers(superCount) + Names(names)
  {
    steps := [];
    for i := 0 to superCount
      invariant steps + Supers(superCount - i) == Supers(superCount)
    {
      steps := steps + [Super];
    }
    assert names[0..] == names;
    for i := 0 to |names|
      invariant steps + Names(names[i..]) == Supers(superCount) + Names(names)
    {
      assert names[i..][1..] == names[i + 1..];
      steps := steps + [Name(names[i])];
    }
  }

  function RelativePath(current: seq<string>, target: seq<string>): seq<PathStep>
  {
    var n := CommonPrefix(current, target);
    Supers(|current| - n + 1) + Names(target[n..])
  }

  /** The relative part of `resolve_relative_type`. From any service module of the package it leads to the type. */
  method RelativeSteps(typeName: string, currentPackage: string) returns (steps: seq<PathStep>)
    ensures steps == RelativePath(Parts(currentPackage), Parts(TrimDots(typeName)))
    ensures forall inner :: Follow(Parts(currentPackage) + [inner], steps) == Some(Parts(TrimDots(typeName)))
  {
    hide Parts, TrimDots, Supers, Names, Follow, CommonPrefix;
    var current, target := Parts(currentPackage), Parts(TrimDots(typeName));
    var common := CountCommon(current, target);
    var superCount := |current| - common + 1;
    steps := SpellPath(superCount, target[common..]);
    forall inner ensures Follow(current + [inner], steps) == Some(target) {
      StepsReachTarget(current, inner, target);
    }
  }

  /** From the service module the emitted path reaches exactly the target's dotted name. */
  lemma {:induction false} StepsReachTarget(current: seq<string>, inner: string, target: seq<string>)
    ensures Follow(current + [inner], RelativePath(current, target)) == Some(target)
  {
    var n := CommonPrefix(current, target);
    var place := current + [inner];
    assert place[..n] == current[..n] == target[..n];
    assert target[..n] + target[n..] == target;
    FollowPath(place, |current| - n + 1, target[n..]);
  }

  /** How a service name is turned into snake case, by a library. */
  type Casing = string -> string

  /** Every service gets a module of its own inside the package's module. */
  function ServiceModule(snake: Casing, service: string): string
  {
    snake(service) + "_gw"
  }

  /** How often a path climbs. */
  function Climbs(steps: seq<PathStep>): nat
  {
    if steps == [] then 0 else (if steps[0].Super? then 1 else 0) + Climbs(steps[1..])
  }

  lemma {:induction false} ClimbsOfPath(k: nat, parts: seq<string>)
    ensures Climbs(Supers(k) + Names(parts)) == k
    decreases k, |parts|
  {
    var steps := Supers(k) + Names(parts);
    if k > 0 {
      assert steps[0] == Super && steps[1..] == Supers(k - 1) + Names(parts);
      ClimbsOfPath(k - 1, parts);
    } else if parts != [] {
      assert steps == Names(parts) && steps[1..] == Supers(0) + Names(parts[1..]);
      ClimbsOfPath(0, parts[1..]);
    }
  }

  /** Every path from the service's module to the target, of whatever steps, climbs at least as often as the emitted. */
  ghost predicate FewestClimbs(current: seq<string>, inner: string, target: seq<string>)
  {
    forall steps :: Follow(current + [inner], steps) == Some(target) ==>
      Climbs(RelativePath(current, target)) <= Climbs(steps)
  }

  /** Where a and b agree up to n, their common prefix is at least n long. */
  lemma {:induction false} CommonAtLeast(a: seq<string>, b: seq<string>, n: nat)
    requires n <= |a| && n <= |b| && a[..n] == b[..n]
    ensures n <= CommonPrefix(a, b)
  {
    if n > 0 {
      assert a[0] == a[..n][0] && b[0] == b[..n][0];
      assert a[1..][..n - 1] == a[..n][1..] && b[1..][..n - 1] == b[..n][1..];
      CommonAtLeast(a[1..], b[1..], n - 1);
    }
  }

  /** A path has to climb out of everything that the target does not lie in. */
  lemma {:induction false} ClimbsNeeded(place: seq<string>, steps: seq<PathStep>, target: seq<string>)
    requires Follow(place, steps) == Some(target)
    ensures |place| - CommonPrefix(place, target) <= Climbs(steps)
    decreases |steps|
  {
    hide CommonPrefix;
    if steps == [] {
      CommonAtLeast(place, target, |place|);
    } else {
      match steps[0]
      case Super =>
        var upper := place[..|place| - 1];
        ClimbsNeeded(upper, steps[1..], target);
        var n := CommonPrefix(upper, target);
        assert place[..n] == upper[..n];
        CommonAtLeast(place, target, n);
      case Name(ident) =>
        var lower := place + [ident];
        ClimbsNeeded(lower, steps[1..], target);
        var n := CommonPrefix(lower, target);
        var m := if n <= |place| then n else |place|;
        assert place[..m] == lower[..n][..m] == target[..n][..m] == target[..m];
        CommonAtLeast(place, target, m);
    }
  }

  /** No path climbs less than the emitted one, exactly unless the target lies inside the service's module. */
  lemma ClimbsMinimal(current: seq<string>, snake: Casing, service: string, target: seq<string>)
    ensures var inner := ServiceModule(snake, service);
            FewestClimbs(current, inner, target) <==> !(current + [inner] <= target)
  {
    hide CommonPrefix, Follow, Climbs, ServiceModule;
    var inner := ServiceModule(snake, service);
    var place, n := current + [inner], CommonPrefix(current, target);
    ClimbsOfPath(|current| - n + 1, target[n..]);
    if place <= target {
      var parts := target[|place|..];
      FollowNames(place, parts);
      assert place + parts == target;
      ClimbsOfPath(0, parts);
      assert Supers(0) + Names(parts) == Names(parts);
      assert Climbs(Names(parts)) < Climbs(RelativePath(current, target));
    } else {
      ExtendedPrefix(current, inner, target);
      forall steps | Follow(place, steps) == Some(target)
        ensures Climbs(RelativePath(current, target)) <= Climbs(steps)
      {
        ClimbsNeeded(place, steps, target);
      }
    }
  }

  lemma {:induction false} ExtendedPrefix(current: seq<string>, inner: string, target: seq<string>)
    requires !(current + [inner] <= target)
    ensures CommonPrefix(current + [inner], target) <= CommonPrefix(current, target)
  {
    hide CommonPrefix;
    var place := current + [inner];
    var n := CommonPrefix(place, target);
    assert place[..|place|] == place;
    assert n <= |current|;
    assert current[..n] == place[..n];
    CommonAtLeast(current, target, n);
  }

  /**
   * The failing family: a type of a package that is named like the service's module, whose own module then has
   * the same path. It needs no climb, and the emitted path has one.
   */
  lemma {:induction false} ClimbsNotMinimal(current: seq<string>, snake: Casing, service: string, name: string)
    ensures var inner := ServiceModule(snake, service);
            && Follow(current + [inner], [Name(name)]) == Some(current + [inner] + [name])
            && RelativePath(current, current + [inner] + [name]) == [Super, Name(inner), Name(name)]
  {
    hide Follow, CommonPrefix, ServiceModule;
    var inner := ServiceModule(snake, service);
    var target := current + [inner] + [name];
    FollowNames(current + [inner], [name]);
    PrefixOfExtension(current, [inner, name]);
    assert target == current + [inner, name];
    assert target[|current|..] == [inner, name] && [inner, name][1..] == [name] && [name][1..] == [];
    assert Names([name]) == [Name(name)] + Names([]) == [Name(name)];
    assert Names([inner, name]) == [Name(inner)] + Names([name]);
    assert Supers(1) == [Super] + Supers(0);
  }

  lemma {:induction false} PrefixOfExtension(a: seq<string>, b: seq<string>)
    ensures CommonPrefix(a, a + b) == |a|
  {
    if a != [] {
      assert (a + b)[1..] == a[1..] + b;
      PrefixOfExtension(a[1..], b);
    }
  }

  /** As names: a service of package a, and a message of the package that is named like the service's module. */
  lemma ClimbsNotMinimalNamed(package: string, snake: Casing, service: string, name: string)
    requires package != "" && name != "" && '.' !in package && '.' !in snake(service) && '.' !in name
    ensures var inner := ServiceModule(snake, service);
            var current, target := Parts(package), Parts(TrimDots("." + Join([package, inner, name], '.')));
            && target == current + [inner] + [name]
            && RelativePath(current, target) == [Super, Name(inner), Name(name)]
            && !FewestClimbs(current, inner, target)
  {
    hide Parts, TrimDots, RelativePath, FewestClimbs;
    var inner := ServiceModule(snake, service);
    var names := [package, inner, name];
    PartsOfJoin([package]);
    PartsOfJoin(names);
    assert Join([package], '.') == package;
    assert Join(names, '.')[0] == package[0];
    assert package[0] in package;
    NothingToTrim(Join(names, '.'));
    FirstDot(Join(names, '.'));
    assert [package] + [inner] + [name] == names;
    ClimbsNotMinimal([package], snake, service, name);
    ClimbsMinimal([package], snake, service, names);
  }

  /** The smallest case: service S of package a, and message T of package a.s_gw. */
  lemma ClimbExample(snake: Casing)
    requires snake("S") == "s"
    ensures var current, target := Parts("a"), Parts(TrimDots(".a.s_gw.T"));
            && RelativePath(current, target) == [Super, Name("s_gw"), Name("T")]
            && !FewestClimbs(current, ServiceModule(snake, "S"), target)
  {
    ExampleTexts(snake);
    assert '.' !in "a" && '.' !in "s" && '.' !in "T";
    hide *;
    ClimbsNotMinimalNamed("a", snake, "S", "T");
  }

  lemma ExampleTexts(snake: Casing)
    requires snake("S") == "s"
    ensures ServiceModule(snake, "S") == "s_gw"
    ensures "." + Join(["a", "s_gw", "T"], '.') == ".a.s_gw.T"
  {
    assert "s" + "_gw" == "s_gw";
    JoinConcat(["a"], ["s_gw", "T"], '.');
    JoinConcat(["s_gw"], ["T"], '.');
    assert Join(["a"], '.') == "a" && Join(["s_gw"], '.') == "s_gw" && Join(["T"], '.') == "T";
    hide *;
    assert ["s_gw"] + ["T"] == ["s_gw", "T"] && ["a"] + ["s_gw", "T"] == ["a", "s_gw", "T"];
    assert "." + ("a" + ['.'] + ("s_gw" + ['.'] + "T")) == ".a.s_gw.T";
  }

  /** The parts of dotted names are the names; of no names at all, as in a file without a package, there are none. */
  lemma {:induction false} PartsOfJoin(names: seq<string>)
    requires AllFree(names, '.') && "" !in names
    ensures Parts(Join(names, '.')) == names
  {
    if names == [] {
      SplitFree("", '.');
      assert [""][1..] == [];
    } else {
      SplitOfJoin(names, '.');
      NonEmptySame(names);
    }
  }

  // ----- the whole resolution -----

  /** A Rust path given as text, or spelled by steps from the service module. */
  datatype TypePath = Absolute(path: string) | Relative(steps: seq<PathStep>)

  /**
   * `resolve_relative_type`: the Rust prefix of the first extern entry whose key's parts lead the name, followed by
   * the remaining names unless the key is all dots; the steps that lead from any service module of the package to
   * the type; or the name as it is.
   */
  method ResolveRelativeType(typeName: string, currentPackage: string, externs: seq<Extern>) returns (r: TypePath)
    ensures forall i: nat :: FirstLeading(externs, typeName, i) ==>
              && r == Absolute(ExternPath(externs[i], typeName))
              && (typeName == externs[i].proto ==> r == Absolute(ResolveType(externs[i].rust)))
              && forall rest ::
                   typeName == externs[i].proto + "." + rest && (exists c <- externs[i].proto :: c != '.') ==>
                     r == Absolute(Expected(externs[i], rest))
    ensures (forall x <- externs :: !PartsLead(x.proto, typeName)) ==>
              if ['.'] <= typeName then
                && r.Relative?
                && r.steps == RelativePath(Parts(currentPackage), Parts(TrimDots(typeName)))
                && forall inner ::
                     Follow(Parts(currentPackage) + [inner], r.steps) == Some(Parts(TrimDots(typeName)))
              else r == Absolute(ResolveType(typeName))
  {
    hide ExternPath, Expected, ResolveType, RelativePath, Parts, TrimDots, Follow, PartsLead, FindExtern;
    var e := FindExtern(externs, typeName);
    FoundFirst(externs, typeName);
    if e.Some? {
      ghost var k: nat :| FirstLeading(externs, typeName, k) && externs[k] == e.value;
      forall i: nat | FirstLeading(externs, typeName, i) ensures i == k {}
      forall rest { ExternPathExactly(e.value, rest); }
      return Absolute(ExternPath(e.value, typeName));
    }
    if typeName == "" || typeName[0] != '.' {
      return Absolute(ResolveType(typeName));
    }
    var steps := RelativeSteps(typeName, currentPackage);
    r := Relative(steps);
  }
}
