/** Forwarding request headers into gRPC metadata: filter, rename, insert, then merge the extension map. */
module Metadata {
  import opened Headers
  import opened Text

  datatype ForwardingConfig = ForwardingConfig(allowedPrefixes: seq<string>, allowedHeaders: seq<string>)

  /** The validity tests of the metadata library: on any key, and on the value of a non-binary key. */
  datatype Syntax = Syntax(keyOk: string -> bool, asciiOk: string -> bool)

  function LowerChar(c: char): char
  {
    if 'A' <= c <= 'Z' then c + 32 as char else c
  }

  function Lower(s: string): string
  {
    if s == "" then "" else [LowerChar(s[0])] + Lower(s[1..])
  }

  const RESTRICTED: seq<string> := [
    "content-type", "content-length", "host", "connection", "keep-alive", "proxy-authenticate",
    "proxy-authorization", "te", "trailer", "transfer-encoding", "upgrade"]

  /** `eq_ignore_ascii_case` */
  predicate SameIgnoringCase(a: string, b: string)
  {
    Lower(a) == Lower(b)
  }

  predicate IsRestricted(key: string)
  {
    exists name <- RESTRICTED :: SameIgnoringCase(key, name)
  }

  predicate IsAllowed(config: ForwardingConfig, key: string)
  {
    || (exists h <- config.allowedHeaders :: SameIgnoringCase(key, h))
    || (exists p <- config.allowedPrefixes :: Lower(p) <= Lower(key))
  }

  function Rename(key: string): string
  {
    if SameIgnoringCase(key, "authorization") || SameIgnoringCase(key, "grpc-timeout") || "x-" <= key || "grpc-" <= key
    then key
    else "x-" + key
  }

  predicate IsBinary(key: string)
  {
    |key| >= 4 && key[|key| - 4..] == "-bin"
  }

  predicate Insertable(syntax: Syntax, key: string, value: string)
  {
    syntax.keyOk(key) && (IsBinary(key) || syntax.asciiOk(value))
  }

  /** The key under which a header is forwarded, if it is. */
  function ForwardKey(config: ForwardingConfig, syntax: Syntax, h: Field): Option<string>
  {
    if IsRestricted(h.name) || !IsAllowed(config, h.name) then None
    else
      var key := Rename(h.name);
      if Insertable(syntax, key, h.value) then Some(key) else None
  }

  /** The last header forwarded under a key. */
  function LastForwarded(config: ForwardingConfig, syntax: Syntax, headers: seq<Field>, key: string): Option<string>
  {
    if headers == [] then None
    else
      var n := |headers| - 1;
      if ForwardKey(config, syntax, headers[n]) == Some(key) then Some(headers[n].value)
      else LastForwarded(config, syntax, headers[..n], key)
  }

  function LastOf(items: seq<Field>, key: string): Option<string>
  {
    if items == [] then None
    else
      var n := |items| - 1;
      if items[n].name == key then Some(items[n].value) else LastOf(items[..n], key)
  }

  function Get(entries: map<string, string>, key: string): Option<string>
  {
    if key in entries then Some(entries[key]) else None
  }

  function OrElse(a: Option<string>, b: Option<string>): Option<string>
  {
    if a.Some? then a else b
  }

  // ----- which headers are forwarded, and under which key -----

  /** The same letter, or its upper and lower case. */
  predicate SameLetter(c: char, d: char)
  {
    c == d || ('A' <= c <= 'Z' && d == c + 32 as char) || ('A' <= d <= 'Z' && c == d + 32 as char)
  }

  ghost predicate SameButCase(a: string, b: string)
  {
    |a| == |b| && forall i :: 0 <= i < |a| ==> SameLetter(a[i], b[i])
  }

  lemma {:induction false} LoweredLetters(s: string)
    ensures |Lower(s)| == |s| && forall i :: 0 <= i < |s| ==> Lower(s)[i] == LowerChar(s[i])
  {
    if s != "" {
      LoweredLetters(s[1..]);
      assert forall i :: 0 < i < |s| ==> s[i] == s[1..][i - 1] && Lower(s)[i] == Lower(s[1..])[i - 1];
    }
  }

  lemma SameIgnoringCaseExactly(a: string, b: string)
    ensures SameIgnoringCase(a, b) <==> SameButCase(a, b)
  {
    hide Lower;
    LoweredLetters(a);
    LoweredLetters(b);
    if SameIgnoringCase(a, b) {
      forall i | 0 <= i < |a| ensures SameLetter(a[i], b[i]) { assert Lower(a)[i] == Lower(b)[i]; }
    }
    if SameButCase(a, b) {
      forall i | 0 <= i < |a| ensures Lower(a)[i] == Lower(b)[i] { assert SameLetter(a[i], b[i]); }
    }
  }

  lemma {:induction false} LowerPrefixExactly(prefix: string, key: string)
    ensures Lower(prefix) <= Lower(key) <==> |prefix| <= |key| && SameButCase(key[..|prefix|], prefix)
  {
    hide Lower;
    LoweredLetters(prefix);
    LoweredLetters(key);
    if |prefix| <= |key| {
      LoweredLetters(key[..|prefix|]);
      SameIgnoringCaseExactly(key[..|prefix|], prefix);
      assert Lower(key)[..|prefix|] == Lower(key[..|prefix|]);
    }
  }

  /** The names that belong to the transport, in whatever case. */
  ghost predicate TransportName(name: string)
  {
    || SameButCase(name, "content-type") || SameButCase(name, "content-length") || SameButCase(name, "host")
    || SameButCase(name, "connection") || SameButCase(name, "keep-alive") || SameButCase(name, "proxy-authenticate")
    || SameButCase(name, "proxy-authorization") || SameButCase(name, "te") || SameButCase(name, "trailer")
    || SameButCase(name, "transfer-encoding") || SameButCase(name, "upgrade")
  }

  /** A configured name, or one that starts with a configured prefix, in whatever case. */
  ghost predicate Welcome(config: ForwardingConfig, name: string)
  {
    || (exists h <- config.allowedHeaders :: SameButCase(name, h))
    || (exists p <- config.allowedPrefixes :: |p| <= |name| && SameButCase(name[..|p|], p))
  }

  /** The name itself where it is a gRPC or extension name already, else the name behind "x-". */
  ghost predicate Forwards(name: string, key: string)
  {
    if SameButCase(name, "authorization") || SameButCase(name, "grpc-timeout")
       || (|name| >= 2 && name[0] == 'x' && name[1] == '-')
       || (|name| >= 5 && name[..5] == "grpc-")
    then key == name
    else key == ['x', '-'] + name
  }

  /** A valid key, with a valid value unless the key ends in "-bin". */
  predicate Storable(syntax: Syntax, key: string, value: string)
  {
    syntax.keyOk(key) && (syntax.asciiOk(value) || exists stem: nat :: stem + 4 == |key| && key[stem..] == "-bin")
  }

  /** The header is stored under the key: it is no transport name, welcome, and the key can hold the value. */
  ghost predicate GoesTo(config: ForwardingConfig, syntax: Syntax, h: Field, key: string)
  {
    !TransportName(h.name) && Welcome(config, h.name) && Forwards(h.name, key) && Storable(syntax, key, h.value)
  }

  lemma RestrictedExactly(name: string)
    ensures IsRestricted(name) <==> TransportName(name)
  {
    hide SameIgnoringCase, SameButCase;
    forall t: string ensures SameIgnoringCase(name, t) <==> SameButCase(name, t) { SameIgnoringCaseExactly(name, t); }
    var r := RESTRICTED;
    assert |r| == 11;
    assert IsRestricted(name) <==> exists i :: 0 <= i < 11 && SameIgnoringCase(name, r[i]);
    assert r[0] == "content-type" && r[1] == "content-length" && r[2] == "host" && r[3] == "connection";
    assert r[4] == "keep-alive" && r[5] == "proxy-authenticate" && r[6] == "proxy-authorization" && r[7] == "te";
    assert r[8] == "trailer" && r[9] == "transfer-encoding" && r[10] == "upgrade";
  }

  lemma AllowedExactly(config: ForwardingConfig, name: string)
    ensures IsAllowed(config, name) <==> Welcome(config, name)
  {
    hide SameIgnoringCase, SameButCase, Lower;
    forall t: string ensures SameIgnoringCase(name, t) <==> SameButCase(name, t) { SameIgnoringCaseExactly(name, t); }
    forall p: string ensures Lower(p) <= Lower(name) <==> |p| <= |name| && SameButCase(name[..|p|], p) {
      LowerPrefixExactly(p, name);
    }
  }

  lemma RenameExactly(name: string)
    ensures Forwards(name, Rename(name))
  {
    hide SameIgnoringCase, SameButCase;
    SameIgnoringCaseExactly(name, "authorization");
    SameIgnoringCaseExactly(name, "grpc-timeout");
    assert "x-" <= name <==> |name| >= 2 && name[0] == 'x' && name[1] == '-';
  }

  lemma ForwardKeyExactly(config: ForwardingConfig, syntax: Syntax, h: Field, key: string)
    ensures ForwardKey(config, syntax, h) == Some(key) <==> GoesTo(config, syntax, h, key)
  {
    hide IsRestricted, TransportName, IsAllowed, Welcome, Rename;
    RestrictedExactly(h.name);
    AllowedExactly(config, h.name);
    RenameExactly(h.name);
    var renamed := Rename(h.name);
    assert Forwards(h.name, key) <==> key == renamed;
    assert IsBinary(renamed) <==> exists stem: nat :: stem + 4 == |renamed| && renamed[stem..] == "-bin" by {
      if IsBinary(renamed) { assert (|renamed| - 4) + 4 == |renamed| && renamed[|renamed| - 4..] == "-bin"; }
    }
  }

  /** Whatever follows a configured prefix. */
  lemma PrefixedWelcome(config: ForwardingConfig, prefix: string, rest: string)
    requires prefix in config.allowedPrefixes
    ensures Welcome(config, prefix + rest)
  {
    assert (prefix + rest)[..|prefix|] == prefix;
  }

  /** The i-th header goes to the key, and no later one does. */
  ghost predicate LastGoing(config: ForwardingConfig, syntax: Syntax, headers: seq<Field>, key: string, i: nat)
  {
    && i < |headers| && GoesTo(config, syntax, headers[i], key)
    && forall j :: i < j < |headers| ==> !GoesTo(config, syntax, headers[j], key)
  }

  /** The value that stays of the headers that go to a key is that of the last one. */
  lemma {:induction false} LastForwardedExactly(config: ForwardingConfig, syntax: Syntax, headers: seq<Field>,
      key: string)
    ensures match LastForwarded(config, syntax, headers, key)
            case Some(value) =>
              exists i: nat :: LastGoing(config, syntax, headers, key, i) && headers[i].value == value
            case None => forall h <- headers :: !GoesTo(config, syntax, h, key)
    decreases |headers|
  {
    hide ForwardKey, GoesTo;
    if headers != [] {
      var n := |headers| - 1;
      var before := headers[..n];
      ForwardKeyExactly(config, syntax, headers[n], key);
      LastForwardedExactly(config, syntax, before, key);
      assert headers == before + [headers[n]];
      if GoesTo(config, syntax, headers[n], key) {
        assert LastGoing(config, syntax, headers, key, n);
      } else if LastForwarded(config, syntax, before, key).Some? {
        var i: nat :| LastGoing(config, syntax, before, key, i)
                      && before[i].value == LastForwarded(config, syntax, before, key).value;
        assert LastGoing(config, syntax, headers, key, i) by {
          forall j | i < j < |headers| ensures !GoesTo(config, syntax, headers[j], key) {
            if j < n { assert headers[j] == before[j]; }
          }
        }
      }
    }
  }

  ghost predicate LastItem(items: seq<Field>, key: string, i: nat)
  {
    i < |items| && items[i].name == key && forall j :: i < j < |items| ==> items[j].name != key
  }

  lemma {:induction false} LastOfExactly(items: seq<Field>, key: string)
    ensures match LastOf(items, key)
            case Some(value) => exists i: nat :: LastItem(items, key, i) && items[i].value == value
            case None => forall item <- items :: item.name != key
    decreases |items|
  {
    if items != [] {
      var n := |items| - 1;
      var before := items[..n];
      LastOfExactly(before, key);
      assert items == before + [items[n]];
      if items[n].name == key {
        assert LastItem(items, key, n);
      } else if LastOf(before, key).Some? {
        var i: nat :| LastItem(before, key, i) && before[i].value == LastOf(before, key).value;
        assert LastItem(items, key, i);
      }
    }
  }

  // ----- the whole map -----

  /** What a map holds after some headers were forwarded into it. */
  ghost predicate Forwarded(config: ForwardingConfig, syntax: Syntax, headers: seq<Field>,
      before: map<string, string>, after: map<string, string>)
  {
    forall key :: Get(after, key) == OrElse(LastForwarded(config, syntax, headers, key), Get(before, key))
  }

  lemma ForwardStep(config: ForwardingConfig, syntax: Syntax, headers: seq<Field>, i: nat,
      before: map<string, string>, now: map<string, string>, after: map<string, string>)
    requires i < |headers| && Forwarded(config, syntax, headers[..i], before, now)
    requires var key := ForwardKey(config, syntax, headers[i]);
             after == if key.Some? then now[key.value := headers[i].value] else now
    ensures Forwarded(config, syntax, headers[..i + 1], before, after)
  {
    assert headers[..i + 1][..i] == headers[..i];
  }

  /** What a map holds after the items of an extension map were inserted into it. */
  ghost predicate Merged(items: seq<Field>, before: map<string, string>, after: map<string, string>)
  {
    forall key :: Get(after, key) == OrElse(LastOf(items, key), Get(before, key))
  }

  /** Each key holds the extension map's last value, else the last header forwarded to it, else what it held before. */
  ghost predicate Propagated(config: ForwardingConfig, syntax: Syntax, headers: seq<Field>, extension: seq<Field>,
      before: map<string, string>, after: map<string, string>)
  {
    forall key ::
      Get(after, key) ==
      OrElse(LastOf(extension, key), OrElse(LastForwarded(config, syntax, headers, key), Get(before, key)))
  }

  lemma MergeStep(items: seq<Field>, i: nat, before: map<string, string>, now: map<string, string>)
    requires i < |items| && Merged(items[..i], before, now)
    ensures Merged(items[..i + 1], before, now[items[i].name := items[i].value])
  {
    assert items[..i + 1][..i] == items[..i];
  }

  /** `MetadataMap` with `insert` and `insert_bin`, which leave one value under a key. */
  class MetadataMap {
    var entries: map<string, string>

    constructor ()
      ensures entries == map[]
    {
      entries := map[];
    }

    method InsertParsed(finalKey: string, value: string, syntax: Syntax)
      modifies this
      ensures entries == if Insertable(syntax, finalKey, value) then old(entries)[finalKey := value] else old(entries)
    {
      if IsBinary(finalKey) {
        if syntax.keyOk(finalKey) {
          entries := entries[finalKey := value];
        }
      } else if syntax.keyOk(finalKey) {
        if syntax.asciiOk(value) {
          entries := entries[finalKey := value];
        }
      }
    }

    /** The body of the header loop. */
    method ForwardOne(h: Field, config: ForwardingConfig, syntax: Syntax)
      modifies this
      ensures var key := ForwardKey(config, syntax, h);
              entries == if key.Some? then old(entries)[key.value := h.value] else old(entries)
      ensures forall key :: GoesTo(config, syntax, h, key) ==> entries == old(entries)[key := h.value]
      ensures (forall key :: !GoesTo(config, syntax, h, key)) ==> entries == old(entries)
    {
      hide GoesTo;
      forall key {
        ForwardKeyExactly(config, syntax, h, key);
      }
      if IsRestricted(h.name) || !IsAllowed(config, h.name) {
        return;
      }
      InsertParsed(Rename(h.name), h.value, syntax);
    }

    /**
     * `forward_metadata`: each key holds the extension map's last value if it has one, else the last accepted
     * header renamed to it, else what it held before.
     */
    method Forward(headers: seq<Field>, config: ForwardingConfig, syntax: Syntax, extension: seq<Field>)
      modifies this
      ensures Propagated(config, syntax, headers, extension, old(entries), entries)
    {
      for i := 0 to |headers|
        invariant Forwarded(config, syntax, headers[..i], old(entries), entries)
      {
        ghost var now := entries;
        ForwardOne(headers[i], config, syntax);
        ForwardStep(config, syntax, headers, i, old(entries), now, entries);
      }
      assert headers[..|headers|] == headers;
      ghost var forwarded := entries;
      for i := 0 to |extension|
        invariant Merged(extension[..i], forwarded, entries)
      {
        MergeStep(extension, i, forwarded, entries);
        entries := entries[extension[i].name := extension[i].value];
      }
      assert extension[..|extension|] == extension;
    }
  }

  // ----- no transport header is ever forwarded -----

  lemma RestrictedNames(name: string)
    requires name in RESTRICTED
    ensures name != "" && LowerChar(name[0]) != 'x'
  {
  }

  lemma FirstChars(a: string, b: string)
    requires SameIgnoringCase(a, b)
    ensures a == "" <==> b == ""
    ensures a != "" ==> LowerChar(a[0]) == LowerChar(b[0])
  {
    if a != "" { assert Lower(a)[0] == LowerChar(a[0]); }
    if b != "" { assert Lower(b)[0] == LowerChar(b[0]); }
  }

  /** Renaming never makes a transport name out of a header that is not one. */
  lemma RenameStaysUnrestricted(key: string)
    requires !IsRestricted(key)
    ensures !IsRestricted(Rename(key))
  {
    var renamed := Rename(key);
    if renamed != key {
      assert renamed[0] == 'x';
      forall name | name in RESTRICTED ensures !SameIgnoringCase(renamed, name) {
        RestrictedNames(name);
        if SameIgnoringCase(renamed, name) { FirstChars(renamed, name); }
      }
    }
  }

  /** Each transport name by itself: no header so named is forwarded, in whatever case it is written. */
  lemma TransportNeverForwarded(config: ForwardingConfig, syntax: Syntax, h: Field)
    requires TransportName(h.name)
    ensures ForwardKey(config, syntax, h).None?
  {
    hide TransportName;
    RestrictedExactly(h.name);
  }

  /** For every header sequence and configuration: headers put no restricted transport name into the metadata. */
  lemma {:induction false} NeverRestricted(config: ForwardingConfig, syntax: Syntax, headers: seq<Field>, key: string)
    requires IsRestricted(key)
    ensures LastForwarded(config, syntax, headers, key).None?
    decreases |headers|
  {
    if headers != [] {
      var n := |headers| - 1;
      NeverRestricted(config, syntax, headers[..n], key);
      if !IsRestricted(headers[n].name) { RenameStaysUnrestricted(headers[n].name); }
    }
  }
}
