/** Extern paths: which entry of the table a type name falls under, and the Rust path it gives. */
module ExternPaths {
  import opened Text

  // ----- the entry -----

  datatype Extern = Extern(proto: string, rust: string)

  /** The key itself, or the key followed by a dot. */
  predicate Applies(proto: string, typeName: string)
  {
    typeName == proto || proto + "." <= typeName
  }

  /** A key applies exactly to the names that start with all of its own dotted parts. */
  lemma {:induction false} AppliesExactly(proto: string, typeName: string)
    ensures Applies(proto, typeName) <==> Split(proto, '.') <= Split(typeName, '.')
  {
    hide Split;
    var a, b := Split(proto, '.'), Split(typeName, '.');
    JoinOfSplit(proto, '.');
    JoinOfSplit(typeName, '.');
    if proto + "." <= typeName {
      var rest := typeName[|proto| + 1..];
      assert typeName == proto + ['.'] + rest;
      SplitConcat(proto, '.', rest);
    }
    if a <= b {
      if |a| == |b| {
        assert a == b;
      } else {
        assert b == a + b[|a|..];
        JoinConcat(a, b[|a|..], '.');
        assert typeName == proto + "." + Join(b[|a|..], '.');
      }
    }
  }

  /** The first entry that applies, in the order the hash map yields them. */
  function FindExtern(externs: seq<Extern>, typeName: string): Option<Extern>
  {
    if externs == [] then None
    else if Applies(externs[0].proto, typeName) then Some(externs[0])
    else FindExtern(externs[1..], typeName)
  }

  lemma {:induction false} FoundApplies(externs: seq<Extern>, typeName: string)
    ensures var e := FindExtern(externs, typeName);
            && (e.Some? ==> e.value in externs && Applies(e.value.proto, typeName))
            && (e.None? ==> forall x <- externs :: !Applies(x.proto, typeName))
  {
    if externs != [] {
      FoundApplies(externs[1..], typeName);
      assert forall x <- externs :: x == externs[0] || x in externs[1..];
    }
  }

  /** The key's dotted parts are the first parts of the name. */
  predicate PartsLead(key: string, typeName: string)
  {
    Split(key, '.') <= Split(typeName, '.')
  }

  ghost predicate FirstLeading(externs: seq<Extern>, typeName: string, i: nat)
  {
    && i < |externs| && PartsLead(externs[i].proto, typeName)
    && forall j :: 0 <= j < i ==> !PartsLead(externs[j].proto, typeName)
  }

  /** The entry that is found is the first whose key's parts the name starts with. */
  lemma {:induction false} FoundFirst(externs: seq<Extern>, typeName: string)
    ensures match FindExtern(externs, typeName)
            case Some(e) => exists i: nat :: FirstLeading(externs, typeName, i) && externs[i] == e
            case None => forall x <- externs :: !PartsLead(x.proto, typeName)
  {
    hide Applies;
    if externs != [] {
      var rest := externs[1..];
      AppliesExactly(externs[0].proto, typeName);
      assert Applies(externs[0].proto, typeName) <==> PartsLead(externs[0].proto, typeName);
      hide PartsLead;
      FoundFirst(rest, typeName);
      assert forall x <- externs :: x == externs[0] || x in rest;
      if PartsLead(externs[0].proto, typeName) {
        assert FirstLeading(externs, typeName, 0);
      } else if FindExtern(rest, typeName).Some? {
        var i: nat :| FirstLeading(rest, typeName, i) && rest[i] == FindExtern(rest, typeName).value;
        forall j | 0 <= j < i + 1 ensures !PartsLead(externs[j].proto, typeName) {
          if j > 0 { assert externs[j] == rest[j - 1]; }
        }
        assert FirstLeading(externs, typeName, i + 1);
      }
    }
  }

  /** Two keys that apply to one name are dotted prefixes of each other, one way or the other. */
  lemma BothApply(p: string, q: string, typeName: string)
    requires Applies(p, typeName) && Applies(q, typeName)
    ensures Applies(p, q) || Applies(q, p)
  {
    assert p <= typeName && q <= typeName;
    if |p| < |q| {
      assert q[..|p|] == typeName[..|p|] == p;
      assert q[|p|] == typeName[|p|] == (p + ".")[|p|];
      assert p + "." == q[..|p| + 1];
    } else if |q| < |p| {
      assert p[..|q|] == typeName[..|q|] == q;
      assert p[|q|] == typeName[|q|] == (q + ".")[|q|];
      assert q + "." == p[..|q| + 1];
    } else {
      assert p == typeName[..|p|] == q;
    }
  }

  /** Keys that are not dotted prefixes of one another make the choice independent of the hash map's order. */
  lemma {:induction false} ExternOrderFree(externs: seq<Extern>, externs': seq<Extern>, typeName: string)
    requires forall e :: e in externs <==> e in externs'
    requires forall x <- externs, y <- externs :: Applies(x.proto, y.proto) ==> x == y
    ensures FindExtern(externs, typeName) == FindExtern(externs', typeName)
  {
    FoundApplies(externs, typeName);
    FoundApplies(externs', typeName);
    var e, e' := FindExtern(externs, typeName), FindExtern(externs', typeName);
    if e.Some? && e'.Some? {
      BothApply(e.value.proto, e'.value.proto, typeName);
    }
  }

  /** All entries that apply to the name are the same one. */
  ghost predicate OneApplies(externs: seq<Extern>, typeName: string)
  {
    forall x <- externs, y <- externs :: Applies(x.proto, typeName) && Applies(y.proto, typeName) ==> x == y
  }

  /** An entry can be listed first. */
  lemma MoveToFront(externs: seq<Extern>, x: Extern) returns (moved: seq<Extern>)
    requires x in externs
    ensures multiset(moved) == multiset(externs) && moved != [] && moved[0] == x
  {
    var i :| 0 <= i < |externs| && externs[i] == x;
    moved := [x] + (externs[..i] + externs[i + 1..]);
    assert externs == externs[..i] + [x] + externs[i + 1..];
  }

  lemma Permuted(externs: seq<Extern>, other: seq<Extern>)
    requires multiset(externs) == multiset(other)
    ensures forall e :: e in externs <==> e in other
  {
    forall e ensures e in externs <==> e in other {
      assert e in externs <==> e in multiset(externs);
      assert e in other <==> e in multiset(other);
    }
  }

  /** For one name: no order of the entries changes the choice exactly when all entries that apply are the same. */
  lemma {:induction false} ExternOrderExactly(externs: seq<Extern>, typeName: string)
    ensures (forall other ::
               multiset(other) == multiset(externs) ==> FindExtern(other, typeName) == FindExtern(externs, typeName))
            <==> OneApplies(externs, typeName)
  {
    hide Applies;
    FoundApplies(externs, typeName);
    if OneApplies(externs, typeName) {
      forall other | multiset(other) == multiset(externs)
        ensures FindExtern(other, typeName) == FindExtern(externs, typeName)
      {
        Permuted(externs, other);
        FoundApplies(other, typeName);
      }
    } else {
      var x, y :| x in externs && y in externs && Applies(x.proto, typeName) && Applies(y.proto, typeName) && x != y;
      var first := MoveToFront(externs, x);
      var second := MoveToFront(externs, y);
      assert FindExtern(first, typeName) == Some(x) && FindExtern(second, typeName) == Some(y);
      var other := if FindExtern(externs, typeName) == Some(x) then second else first;
      assert multiset(other) == multiset(externs) && FindExtern(other, typeName) != FindExtern(externs, typeName);
    }
  }

  /** Without that condition the order decides. */
  lemma ExternOrderMatters()
    ensures var a, b := Extern(".a", "x"), Extern(".a.b", "y");
            FindExtern([a, b], ".a.b.T") != FindExtern([b, a], ".a.b.T")
  {
    var a, b := Extern(".a", "x"), Extern(".a.b", "y");
    assert Applies(a.proto, ".a.b.T") by { assert ".a.b.T"[..3] == ".a" + "."; }
    assert Applies(b.proto, ".a.b.T") by { assert ".a.b.T"[..5] == ".a.b" + "."; }
  }

  // ----- the path -----

  function TrimDots(s: string): string
  {
    if s != "" && s[0] == '.' then TrimDots(s[1..]) else s
  }

  function DotsToColons(s: string): string
  {
    if s == "" then "" else (if s[0] == '.' then "::" else [s[0]]) + DotsToColons(s[1..])
  }

  /** `resolve_type`, as text. */
  function ResolveType(typeName: string): string
  {
    DotsToColons(TrimDots(typeName))
  }

  /** The extern branch; it always answers once an entry was found. */
  function ExternPath(e: Extern, typeName: string): string
  {
    var cleanType, cleanProto := TrimDots(typeName), TrimDots(e.proto);
    if typeName == e.proto || cleanType == cleanProto || !(cleanProto <= cleanType) then ResolveType(e.rust)
    else ResolveType(e.rust + DotsToColons(cleanType[|cleanProto|..]))
  }

  /** An entry that applies still is a prefix once leading dots are trimmed, so the branch never falls through. */
  lemma {:induction false} ExternNeverFallsThrough(proto: string, typeName: string)
    requires Applies(proto, typeName)
    ensures TrimDots(proto) <= TrimDots(typeName)
    decreases |proto|
  {
    if typeName != proto && proto != "" && proto[0] == '.' {
      assert (proto + ".")[1..] == proto[1..] + ".";
      assert typeName[0] == (proto + ".")[0];
      assert typeName[1..][..|proto|] == (proto + ".")[1..];
      ExternNeverFallsThrough(proto[1..], typeName[1..]);
    } else if typeName != proto && proto != "" {
      assert typeName[0] == (proto + ".")[0];
    }
  }

  /** Names as a Rust path. */
  function RustPath(names: seq<string>): string
  {
    if |names| == 0 then "" else if |names| == 1 then names[0] else names[0] + "::" + RustPath(names[1..])
  }

  lemma {:induction false} DotsSpellNames(s: string)
    ensures DotsToColons(s) == RustPath(Split(s, '.')) && '.' !in DotsToColons(s)
    decreases |s|
  {
    if s != "" {
      DotsSpellNames(s[1..]);
      var rest := Split(s[1..], '.');
      if s[0] == '.' {
        assert ([""] + rest)[1..] == rest;
        assert RustPath([""] + rest) == "" + "::" + RustPath(rest);
      } else {
        var parts := [[s[0]] + rest[0]] + rest[1..];
        assert parts[1..] == rest[1..];
        assert RustPath(parts) == [s[0]] + RustPath(rest);
      }
    }
  }

  lemma {:induction false} DotsConcat(a: string, b: string)
    ensures DotsToColons(a + b) == DotsToColons(a) + DotsToColons(b)
    decreases |a|
  {
    if a == "" {
      assert a + b == b;
    } else {
      assert (a + b)[1..] == a[1..] + b;
      DotsConcat(a[1..], b);
    }
  }

  lemma {:induction false} DotFree(s: string)
    requires '.' !in s
    ensures DotsToColons(s) == s
    decreases |s|
  {
    if s != "" {
      DotFree(s[1..]);
      assert s == [s[0]] + s[1..];
    }
  }

  /** Trimming stops at the first character that is not a dot. */
  lemma {:induction false} TrimConcat(a: string, b: string)
    ensures TrimDots(a) != "" || (b != "" && b[0] != '.') ==> TrimDots(a + b) == TrimDots(a) + b
    ensures TrimDots(a) == "" ==> TrimDots(a + b) == TrimDots(b)
    decreases |a|
  {
    if a == "" {
      assert a + b == b;
    } else {
      assert (a + b)[1..] == a[1..] + b;
      if a[0] == '.' { TrimConcat(a[1..], b); }
    }
  }

  /** Appending dot-free text that does not look like leading dots. */
  lemma ResolveAppended(rust: string, tail: string)
    requires tail != "" && '.' !in tail
    ensures ResolveType(rust + tail) == ResolveType(rust) + tail
  {
    hide TrimDots, DotsToColons;
    assert tail[0] in tail;
    TrimConcat(rust, tail);
    DotsConcat(TrimDots(rust), tail);
    DotFree(tail);
  }

  lemma {:induction false} TrimShortens(s: string)
    ensures |DotsToColons(TrimDots(s))| <= |DotsToColons(s)|
    ensures TrimDots(s) != "" ==> DotsToColons(TrimDots(s)) != ""
  {
    if s != "" && s[0] == '.' {
      TrimShortens(s[1..]);
    }
  }

  /** A resolved name: leading dots gone, and the remaining names as a Rust path. */
  lemma {:induction false} ResolvedNames(name: string)
    ensures ResolveType(name) == RustPath(Split(TrimDots(name), '.'))
    ensures TrimDots(name) != "" ==> TrimDots(name)[0] != '.'
    ensures |TrimDots(name)| <= |name| && name[|name| - |TrimDots(name)|..] == TrimDots(name)
    ensures forall i :: 0 <= i < |name| - |TrimDots(name)| ==> name[i] == '.'
  {
    hide DotsToColons, RustPath, Split;
    DotsSpellNames(TrimDots(name));
    TrimmedDots(name);
  }

  lemma {:induction false} TrimmedDots(name: string)
    ensures TrimDots(name) != "" ==> TrimDots(name)[0] != '.'
    ensures |TrimDots(name)| <= |name| && name[|name| - |TrimDots(name)|..] == TrimDots(name)
    ensures forall i :: 0 <= i < |name| - |TrimDots(name)| ==> name[i] == '.'
  {
    if name != "" && name[0] == '.' {
      TrimmedDots(name[1..]);
      var n := |TrimDots(name[1..])|;
      assert name[1..][|name| - 1 - n..] == name[|name| - n..];
      assert forall i :: 0 < i < |name| - n ==> name[i] == name[1..][i - 1];
    } else {
      assert name[0..] == name;
    }
  }

  /** A name below the key: the Rust prefix followed by the remaining names. */
  function Expected(e: Extern, rest: string): string
  {
    ResolveType(e.rust) + "::" + RustPath(Split(rest, '.'))
  }

  /**
   * What an entry that applies gives. The key itself becomes the Rust prefix. A name below the key becomes the
   * prefix, "::" and the remaining names, if and only if the key has a character that is not a dot; below a key of
   * dots alone the names follow the prefix without a separator.
   */
  lemma {:induction false} ExternPathExactly(e: Extern, rest: string)
    ensures ExternPath(e, e.proto) == ResolveType(e.rust)
    ensures ExternPath(e, e.proto + "." + rest) == Expected(e, rest) <==> exists c <- e.proto :: c != '.'
    ensures (forall c <- e.proto :: c == '.') ==>
              ExternPath(e, e.proto + "." + rest) == ResolveType(e.rust) + RustPath(Split(TrimDots(rest), '.'))
  {
    hide DotsToColons, RustPath, ResolveType, TrimDots, Split;
    var key, typeName, prefix := TrimDots(e.proto), e.proto + "." + rest, ResolveType(e.rust);
    assert typeName == e.proto + ("." + rest);
    TrimConcat(e.proto, "." + rest);
    TrimmedEmpty(e.proto);
    DotsSpellNames(rest);
    if key != "" {
      var tail := "::" + DotsToColons(rest);
      assert TrimDots(typeName) == key + ("." + rest) && (key + ("." + rest))[|key|..] == "." + rest;
      FirstDot(rest);
      ResolveAppended(e.rust, tail);
      assert prefix + tail == prefix + "::" + DotsToColons(rest);
    } else {
      var clean := TrimDots(typeName);
      FirstDot(rest);
      DotsSpellNames(clean);
      TrimShortens(rest);
      assert clean[0..] == clean;
      if clean == "" {
        DotFree(clean);
        assert prefix + DotsToColons(clean) == prefix;
      } else {
        ResolveAppended(e.rust, DotsToColons(clean));
      }
      assert ExternPath(e, typeName) == prefix + DotsToColons(clean);
      assert |ExternPath(e, typeName)| <= |prefix| + |DotsToColons(rest)|;
    }
  }

  lemma {:induction false} FirstDot(rest: string)
    ensures DotsToColons("." + rest) == "::" + DotsToColons(rest) && TrimDots("." + rest) == TrimDots(rest)
  {
    assert ("." + rest)[1..] == rest;
  }

  lemma {:induction false} TrimmedEmpty(s: string)
    ensures TrimDots(s) != "" <==> exists c <- s :: c != '.'
  {
    if s != "" {
      if s[0] == '.' {
        TrimmedEmpty(s[1..]);
        assert forall c <- s :: c == '.' || c in s[1..];
        assert forall c <- s[1..] :: c in s;
      } else {
        assert s[0] in s;
      }
    }
  }

  lemma {:induction false} NothingToTrim(s: string)
    requires s != "" && s[0] != '.'
    ensures TrimDots(s) == s
  {
  }

  /** The empty key applies to every name with a leading dot, and glues the Rust prefix to its first name. */
  lemma EmptyKeyGlues()
    ensures Applies("", ".a.T") && ExternPath(Extern("", "crate"), ".a.T") == "cratea::T"
  {
    var typeName, name, crate := "." + ("a" + ".T"), "a" + ".T", "crate";
    NamesOfExample();
    NothingToTrim(name);
    NothingToTrim(crate);
    FirstDot(name);
    ResolveAppended(crate, "a::T");
    DotFree(crate);
    hide DotsToColons, TrimDots;
    assert name[0..] == name;
    assert "" + "." <= typeName;
    assert TrimDots("") == "" by { TrimmedEmpty(""); }
    assert ExternPath(Extern("", crate), typeName) == ResolveType(crate + "a::T");
    assert typeName == ".a.T" && crate + "a::T" == "cratea::T";
  }

  lemma NamesOfExample()
    ensures DotsToColons("a" + ".T") == "a::T"
  {
    DotsConcat("a", "." + "T");
    DotFree("a");
    FirstDot("T");
    DotFree("T");
    hide DotsToColons;
    assert "." + "T" == ".T" && "a" + ("::" + "T") == "a::T";
  }
}
