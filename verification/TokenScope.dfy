/**
 The parser of the bearer-token allowlist. Commas separate both the entries of the
 list and the tenant ids inside an entry; a re-glue loop resolves the ambiguity.
 */
module TokenScope {
  import opened Options
  import opened Strings

  datatype TenantScope = All | Only(ids: set<nat>) {
    predicate Allows(tenant: nat) {
      All? || tenant in ids
    }
  }

  datatype ScopeParseError =
    | EmptyEntry
    | MissingBearer
    | EmptyTenantList
    | InvalidTenant(fragment: string)
    | WildcardMixedWithIds
    | UnknownKey(key: string)

  type EntryResult = Result<(string, TenantScope), ScopeParseError>

  datatype ParsedTokens = ParsedTokens(scopes: map<string, TenantScope>, deprecatedCount: nat)

  // ------------------------------------------------------------------
  // One entry
  // ------------------------------------------------------------------

  /** A fragment that can stand in a tenant list. */
  predicate ListShaped(frag: string) {
    frag == "*" || ParseU64(frag).Some?
  }

  function IdsOf(frags: seq<string>): set<nat> {
    set f | f in frags && Trim(f) != "*" && ParseU64(Trim(f)).Some? :: ParseU64(Trim(f)).value
  }

  predicate HasWildcard(frags: seq<string>) {
    exists f :: f in frags && Trim(f) == "*"
  }

  /** The scope a tenant list denotes: the first fragment that is not list-shaped is the error. */
  function ListScope(frags: seq<string>): Result<TenantScope, ScopeParseError> {
    var bad := FirstBad(frags);
    if bad.Some? then Err(InvalidTenant(bad.value))
    else if HasWildcard(frags) then (if IdsOf(frags) == {} then Ok(All) else Err(WildcardMixedWithIds))
    else Ok(Only(IdsOf(frags)))
  }

  function FirstBad(frags: seq<string>): Option<string> {
    if frags == [] then None
    else if !ListShaped(Trim(frags[0])) then Some(Trim(frags[0]))
    else FirstBad(frags[1..])
  }

  /** Specification of the parser of one entry. */
  function Entry(s: string): EntryResult {
    var trimmed := Trim(s);
    if trimmed == "" then Err(EmptyEntry)
    else match SplitOnce(trimmed, ':')
      case None => Ok((trimmed, All))
      case Some((before, after)) =>
        var bearer, rest := Trim(before), Trim(after);
        if bearer == "" then Err(MissingBearer)
        else match SplitOnce(rest, '=')
          case None => Err(UnknownKey(rest))
          case Some((key, v)) =>
            if key != "tenant" then Err(UnknownKey(key))
            else if Trim(v) == "" then Err(EmptyTenantList)
            else match ListScope(Split(Trim(v), ','))
              case Err(e) => Err(e)
              case Ok(scope) => Ok((bearer, scope))
  }

  lemma {:induction false} FirstBadPrefix(frags: seq<string>, n: nat)
    requires n < |frags| && !ListShaped(Trim(frags[n])) && forall i :: 0 <= i < n ==> ListShaped(Trim(frags[i]))
    ensures FirstBad(frags) == Some(Trim(frags[n]))
  {
    if n > 0 {
      assert ListShaped(Trim(frags[0]));
      FirstBadPrefix(frags[1..], n - 1);
    }
  }

  lemma {:induction false} FirstBadNone(frags: seq<string>)
    requires forall i :: 0 <= i < |frags| ==> ListShaped(Trim(frags[i]))
    ensures FirstBad(frags) == None
  {
    if frags != [] {
      FirstBadNone(frags[1..]);
    }
  }

  lemma OneMoreFragment(frags: seq<string>, i: nat)
    requires i < |frags|
    ensures HasWildcard(frags[..i + 1]) <==> HasWildcard(frags[..i]) || Trim(frags[i]) == "*"
    ensures var id := ParseU64(Trim(frags[i]));
            IdsOf(frags[..i + 1]) == IdsOf(frags[..i]) + if Trim(frags[i]) != "*" && id.Some? then {id.value} else {}
  {
    hide Trim, ParseU64;
    assert frags[..i + 1] == frags[..i] + [frags[i]];
    assert frags[i] in frags[..i + 1];
  }

  /** Collects the ids of a tenant list, watching for the wildcard. */
  method ParseTenantList(value: string) returns (r: Result<TenantScope, ScopeParseError>)
    ensures r == ListScope(Split(value, ','))
  {
    hide *;
    var sawWildcard := false;
    var ids: set<nat> := {};
    var frags := Split(value, ',');
    NoFragments(frags[..0]);
    for i := 0 to |frags|
      invariant forall j :: 0 <= j < i ==> ListShaped(Trim(frags[j]))
      invariant sawWildcard == HasWildcard(frags[..i]) && ids == IdsOf(frags[..i])
    {
      var frag := Trim(frags[i]);
      OneMoreFragment(frags, i);
      ListShapes(frag);
      if frag == "" || (frag != "*" && ParseU64(frag) == None) {
        FirstBadPrefix(frags, i);
        ScopeOfBadList(frags);
        return Err(InvalidTenant(frag));
      }
      if frag == "*" {
        sawWildcard := true;
      } else {
        ids := ids + {ParseU64(frag).value};
      }
    }
    assert frags[..|frags|] == frags;
    FirstBadNone(frags);
    ScopeOfGoodList(frags);
    if sawWildcard && ids != {} {
      return Err(WildcardMixedWithIds);
    }
    r := Ok(if sawWildcard then All else Only(ids));
  }

  lemma ListShapes(frag: string)
    ensures ListShaped(frag) <==> frag == "*" || ParseU64(frag).Some?
    ensures !ListShaped("")
  {
  }

  lemma ScopeOfBadList(frags: seq<string>)
    requires FirstBad(frags).Some?
    ensures ListScope(frags) == Err(InvalidTenant(FirstBad(frags).value))
  {
  }

  lemma ScopeOfGoodList(frags: seq<string>)
    requires FirstBad(frags).None?
    ensures ListScope(frags) == if !HasWildcard(frags) then Ok(Only(IdsOf(frags)))
                                else if IdsOf(frags) == {} then Ok(All) else Err(WildcardMixedWithIds)
  {
  }

  lemma NoFragments(frags: seq<string>)
    requires frags == []
    ensures !HasWildcard(frags) && IdsOf(frags) == {}
  {
  }

  method ParseTokenEntry(s: string) returns (r: EntryResult)
    ensures r == Entry(s)
  {
    var trimmed := Trim(s);
    if trimmed == "" {
      return Err(EmptyEntry);
    }
    match SplitOnce(trimmed, ':')
    case None =>
      r := Ok((trimmed, All));
    case Some((before, after)) =>
      var bearer := Trim(before);
      if bearer == "" {
        return Err(MissingBearer);
      }
      var rest := Trim(after);
      match SplitOnce(rest, '=')
      case None =>
        return Err(UnknownKey(rest));
      case Some((key, v)) =>
        if key != "tenant" {
          return Err(UnknownKey(key));
        }
        var value := Trim(v);
        if value == "" {
          return Err(EmptyTenantList);
        }
        var scope := ParseTenantList(value);
        r := if scope.Err? then Err(scope.error) else Ok((bearer, scope.value));
  }

  // ------------------------------------------------------------------
  // The re-glue
  // ------------------------------------------------------------------

  /** A fragment that opens a tenant list: list-shaped fragments after it belong to it. */
  predicate OpensList(frag: string) {
    var split := SplitOnce(frag, ':');
    split.Some? && StartsWith(Trim(split.value.1), "tenant=")
  }

  predicate Continues(inList: bool, frag: string) {
    inList && ':' !in frag && ListShaped(frag)
  }

  function Flush(current: string): seq<string> {
    if current == "" then [] else [current]
  }

  /** Specification of the re-glue loop: what `frags` add to the entries when `current` is open. */
  function Glue(frags: seq<string>, current: string, inList: bool): seq<string> {
    if frags == [] then Flush(current)
    else
      var frag := Trim(frags[0]);
      if frag == "" then Flush(current) + Glue(frags[1..], "", false)
      else if Continues(inList, frag) then Glue(frags[1..], current + "," + frag, true)
      else Flush(current) + Glue(frags[1..], frag, OpensList(frag))
  }

  function Entries(env: string): seq<string> {
    Glue(Split(env, ','), "", false)
  }

  /** What the parsed entries amount to: later entries overwrite earlier ones, errors are dropped. */
  function Collect(entries: seq<string>): ParsedTokens {
    if entries == [] then ParsedTokens(map[], 0)
    else
      var n := |entries| - 1;
      var out := Collect(entries[..n]);
      match Entry(entries[n])
      case Err(_) => out
      case Ok((bearer, scope)) =>
        ParsedTokens(out.scopes[bearer := scope], out.deprecatedCount + (if ':' in entries[n] then 0 else 1))
  }

  /** The re-glue loop. */
  method GlueFragments(env: string) returns (entries: seq<string>)
    ensures entries == Entries(env)
  {
    hide Trim, ListShaped, OpensList, Split, Glue;
    var frags := Split(env, ',');
    entries := [];
    var current := "";
    var inTenantList := false;
    assert frags[0..] == frags;
    for i := 0 to |frags|
      invariant entries + Glue(frags[i..], current, inTenantList) == Entries(env)
    {
      var trimmed := Trim(frags[i]);
      GlueStep(frags, i, current, inTenantList);
      if trimmed == "" {
        if current != "" {
          entries := entries + [current];
          current := "";
        }
        inTenantList := false;
        continue;
      }
      var hasColon := ':' in trimmed;
      if inTenantList && !hasColon && ListShaped(trimmed) {
        current := current + "," + trimmed;
      } else {
        if current != "" {
          entries := entries + [current];
        }
        current := trimmed;
        inTenantList := hasColon && OpensList(trimmed);
        OpensListHasColon(trimmed);
      }
    }
    GlueEnd(frags, current, inTenantList);
    if current != "" {
      entries := entries + [current];
    }
  }

  lemma GlueStep(frags: seq<string>, i: nat, current: string, inList: bool)
    requires i < |frags|
    ensures var frag, rest := Trim(frags[i]), frags[i + 1..];
            Glue(frags[i..], current, inList) ==
            if frag == "" then Flush(current) + Glue(rest, "", false)
            else if Continues(inList, frag) then Glue(rest, current + "," + frag, true)
            else Flush(current) + Glue(rest, frag, OpensList(frag))
  {
    assert frags[i..][0] == frags[i] && frags[i..][1..] == frags[i + 1..];
  }

  lemma GlueEnd(frags: seq<string>, current: string, inList: bool)
    ensures Glue(frags[|frags|..], current, inList) == Flush(current)
  {
    assert frags[|frags|..] == [];
  }

  lemma OpensListHasColon(frag: string)
    ensures OpensList(frag) ==> ':' in frag
  {
    SplitOnceLaws(frag, ':');
  }

  method ParseTokensEnv(env: string) returns (out: ParsedTokens)
    ensures out == Collect(Entries(env))
  {
    hide Entry, Entries, Trim;
    out := ParsedTokens(map[], 0);
    if Trim(env) == "" {
      BlankHasNoEntries(env);
      return;
    }
    var entries := GlueFragments(env);
    for i := 0 to |entries|
      invariant out == Collect(entries[..i])
    {
      var entry := entries[i];
      assert entries[..i + 1][..i] == entries[..i];
      var isBare := ':' !in entry;
      var parsed := ParseTokenEntry(entry);
      match parsed
      case Ok((bearer, scope)) =>
        out := ParsedTokens(out.scopes[bearer := scope], if isBare then out.deprecatedCount + 1 else out.deprecatedCount);
      case Err(_) =>
    }
    assert entries[..|entries|] == entries;
  }

  lemma {:induction false} AllSpaces(s: string)
    requires Trim(s) == ""
    ensures forall c :: c in s ==> IsSpace(c)
    decreases |s|
  {
    if s != "" && IsSpace(s[0]) {
      AllSpaces(s[1..]);
    } else if s != "" {
      TrimEndLaws(s);
      TrimEndKeepsFirst(s);
    }
  }

  lemma {:induction false} TrimEndKeepsFirst(s: string)
    requires s != "" && !IsSpace(s[0])
    ensures TrimEnd(s) != ""
    decreases |s|
  {
    if IsSpace(s[|s| - 1]) {
      TrimEndKeepsFirst(s[..|s| - 1]);
    }
  }

  lemma BlankHasNoEntries(env: string)
    requires Trim(env) == ""
    ensures Entries(env) == []
  {
    AllSpaces(env);
    SplitNone(env, ',');
    assert [env][1..] == [];
  }
}
