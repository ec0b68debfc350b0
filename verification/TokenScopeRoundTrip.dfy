/**
 Printing a list of allowlist entries and parsing it back: exactly when the parser
 recovers what was printed.
 */
module TokenScopeRoundTrip {
  import opened Options
  import opened Strings
  import opened TokenScope
  import opened TokenScopeLaws

  datatype Grant =
    | Bare(bearer: string)
    | Wild(bearer: string)
    | Scoped(bearer: string, ids: seq<nat>)
  {
    function Scope(): TenantScope {
      if Scoped? then Only(set id | id in ids) else All
    }

    predicate Valid() {
      GoodBearer(bearer) && (Scoped? ==> ids != [] && forall id :: id in ids ==> id <= U64_MAX)
    }

    /** The tenant list, as the fragments its commas separate. */
    function ListFragments(): (r: seq<string>)
      requires !Bare?
    {
      if Wild? then ["*"] else Decimals(ids)
    }

    function Render(): string {
      if Bare? then bearer else bearer + ":tenant=" + Join(ListFragments(), ',')
    }
  }

  function Decimals(ids: seq<nat>): (r: seq<string>)
    ensures |r| == |ids|
  {
    seq(|ids|, i requires 0 <= i < |ids| => Decimal(ids[i]))
  }

  function RenderAll(gs: seq<Grant>): seq<string> {
    seq(|gs|, i requires 0 <= i < |gs| => gs[i].Render())
  }

  function RenderEnv(gs: seq<Grant>): string {
    Join(RenderAll(gs), ',')
  }

  /** A bare bearer that reads like a tenant right after an entry with a tenant list. */
  predicate ClashAt(gs: seq<Grant>, i: nat)
    requires i < |gs|
  {
    i > 0 && !gs[i - 1].Bare? && gs[i].Bare? && ListShaped(gs[i].bearer)
  }

  predicate NoClash(gs: seq<Grant>) {
    forall i :: 0 <= i < |gs| ==> !ClashAt(gs, i)
  }

  ghost predicate DistinctBearers(gs: seq<Grant>) {
    forall i, j :: 0 <= i < j < |gs| ==> gs[i].bearer != gs[j].bearer
  }

  ghost predicate AllValid(gs: seq<Grant>) {
    forall i :: 0 <= i < |gs| ==> gs[i].Valid()
  }

  function Bares(gs: seq<Grant>): nat {
    if gs == [] then 0 else (if gs[0].Bare? then 1 else 0) + Bares(gs[1..])
  }

  // ------------------------------------------------------------------
  // The fragments of a printed list
  // ------------------------------------------------------------------

  /** The fragments one grant contributes. */
  function Fragments(g: Grant): (r: seq<string>)
    requires !g.Bare? ==> g.ListFragments() != []
    ensures |r| >= 1
  {
    if g.Bare? then [g.bearer]
    else
      var list := g.ListFragments();
      [g.bearer + ":tenant=" + list[0]] + list[1..]
  }

  function AllFragments(gs: seq<Grant>): seq<string>
    requires forall g :: g in gs && !g.Bare? ==> g.ListFragments() != []
  {
    if gs == [] then [] else Fragments(gs[0]) + AllFragments(gs[1..])
  }

  predicate CleanTenant(f: string) {
    f != "" && ListShaped(f) && Trimmed(f) && ',' !in f && ':' !in f && '=' !in f
  }

  lemma DecimalIsClean(n: nat)
    requires n <= U64_MAX
    ensures CleanTenant(Decimal(n))
  {
    DecimalRoundTrip(n);
    var s := Decimal(n);
    assert IsDigit(s[0]) && IsDigit(s[|s| - 1]);
  }

  lemma ListIsClean(g: Grant)
    requires g.Valid() && !g.Bare?
    ensures g.ListFragments() != [] && forall f :: f in g.ListFragments() ==> CleanTenant(f)
  {
    if g.Scoped? {
      forall f | f in g.ListFragments() ensures CleanTenant(f) {
        var i :| 0 <= i < |g.ids| && f == Decimal(g.ids[i]);
        assert g.ids[i] in g.ids;
        DecimalIsClean(g.ids[i]);
      }
    }
  }

  /** The opening fragment of a scoped entry is trimmed and opens a list. */
  lemma OpeningFragment(bearer: string, tenants: string)
    requires GoodBearer(bearer) && tenants != "" && Trimmed(tenants)
    ensures var f := bearer + ":tenant=" + tenants;
            && f != "" && Trimmed(f) && ':' in f && SplitOnce(f, ':') == Some((bearer, "tenant=" + tenants))
            && Trimmed("tenant=" + tenants) && OpensList(f)
  {
    var f, rest := bearer + ":tenant=" + tenants, "tenant=" + tenants;
    assert f == bearer + [':'] + rest;
    assert f[|bearer|] == ':';
    assert f[0] == bearer[0] && f[|f| - 1] == tenants[|tenants| - 1] && rest[|rest| - 1] == tenants[|tenants| - 1];
    SplitOnceAt(bearer, ':', rest);
    TrimTrimmed(rest);
  }

  lemma {:induction false} JoinSplit(head: string, list: seq<string>)
    requires list != [] && ',' !in head && forall f :: f in list ==> ',' !in f
    ensures Split(head + Join(list, ','), ',') == [head + list[0]] + list[1..]
  {
    assert list[0] in list;
    var first := head + list[0];
    SplitNone(first, ',');
    if |list| == 1 {
      assert head + Join(list, ',') == first;
    } else {
      var tail := Join(list[1..], ',');
      assert head + Join(list, ',') == first + [','] + tail;
      SplitAt(first, ',', tail);
      SplitJoin(list[1..], ',');
    }
  }

  lemma GrantFragments(g: Grant)
    requires g.Valid()
    ensures (!g.Bare? ==> g.ListFragments() != []) && Split(g.Render(), ',') == Fragments(g)
  {
    if g.Bare? {
      SplitNone(g.bearer, ',');
    } else {
      ListIsClean(g);
      JoinSplit(g.bearer + ":tenant=", g.ListFragments());
    }
  }

  lemma {:induction false} EnvFragments(gs: seq<Grant>)
    requires AllValid(gs) && gs != []
    ensures forall g :: g in gs && !g.Bare? ==> g.ListFragments() != []
    ensures Split(RenderEnv(gs), ',') == AllFragments(gs)
    decreases |gs|
  {
    hide Split, Fragments, Grant.Render, Grant.Valid;
    GrantFragments(gs[0]);
    var r, tail := RenderAll(gs), gs[1..];
    forall g | g in gs && !g.Bare? ensures g.ListFragments() != [] {
      var i :| 0 <= i < |gs| && gs[i] == g;
      GrantFragments(g);
    }
    if |gs| > 1 {
      EnvFragments(tail);
      assert r[1..] == RenderAll(tail);
      SplitAt(gs[0].Render(), ',', RenderEnv(tail));
    } else {
      assert AllFragments(tail) == [] && RenderEnv(gs) == gs[0].Render();
    }
  }

  // ------------------------------------------------------------------
  // Gluing them back
  // ------------------------------------------------------------------

  /** List-shaped fragments after an opened list join it. */
  lemma {:induction false} GlueList(list: seq<string>, rest: seq<string>, current: string)
    requires forall f :: f in list ==> CleanTenant(f)
    ensures Glue(list + rest, current, true) == Glue(rest, if list == [] then current else current + "," + Join(list, ','), true)
    decreases |list|
  {
    if list == [] {
      assert list + rest == rest;
    } else {
      assert list[0] in list;
      TrimTrimmed(list[0]);
      assert (list + rest)[0] == list[0] && (list + rest)[1..] == list[1..] + rest;
      GlueList(list[1..], rest, current + "," + list[0]);
      if |list| > 1 {
        assert current + "," + list[0] + "," + Join(list[1..], ',') == current + "," + Join(list, ',');
      } else {
        assert current + "," + list[0] == current + "," + Join(list, ',');
      }
    }
  }

  /** A bare grant right after an open list, if it reads like a tenant, is swallowed by it. */
  predicate Swallowed(g: Grant, inList: bool) {
    inList && g.Bare? && ListShaped(g.bearer)
  }

  lemma GlueHead(frag: string, rest: seq<string>, current: string, inList: bool)
    requires frag != "" && Trimmed(frag)
    ensures Glue([frag] + rest, current, inList) ==
            if Continues(inList, frag) then Glue(rest, current + "," + frag, true)
            else Flush(current) + Glue(rest, frag, OpensList(frag))
  {
    TrimTrimmed(frag);
    assert ([frag] + rest)[1..] == rest;
  }

  lemma GlueOpened(first: string, tail: seq<string>, rest: seq<string>, current: string, inList: bool)
    requires first != "" && Trimmed(first) && ':' in first && OpensList(first)
    requires forall f :: f in tail ==> CleanTenant(f)
    ensures Glue([first] + tail + rest, current, inList) ==
            Flush(current) + Glue(rest, if tail == [] then first else first + "," + Join(tail, ','), true)
  {
    hide *;
    assert [first] + tail + rest == [first] + (tail + rest);
    GlueHead(first, tail + rest, current, inList);
    GlueList(tail, rest, first);
    ColonNeverContinues(inList, first);
  }

  lemma ColonNeverContinues(inList: bool, frag: string)
    requires ':' in frag
    ensures !Continues(inList, frag)
  {
  }

  lemma GlueScoped(g: Grant, rest: seq<string>, current: string, inList: bool)
    requires g.Valid() && !g.Bare? && g.ListFragments() != []
    ensures Glue(Fragments(g) + rest, current, inList) == Flush(current) + Glue(rest, g.Render(), true)
  {
    ListIsClean(g);
    var list := g.ListFragments();
    assert list[0] in list;
    OpeningFragment(g.bearer, list[0]);
    RenderFromFirst(g);
    GlueOpened(Fragments(g)[0], list[1..], rest, current, inList);
    hide Glue, OpensList, CleanTenant, Join, Grant.ListFragments, Grant.Render;
  }

  lemma GlueGrant(g: Grant, rest: seq<string>, current: string, inList: bool)
    requires g.Valid() && (!g.Bare? ==> g.ListFragments() != [])
    ensures Glue(Fragments(g) + rest, current, inList) ==
            if Swallowed(g, inList) then Glue(rest, current + "," + g.bearer, true)
            else Flush(current) + Glue(rest, g.Render(), !g.Bare?)
  {
    hide Glue, Trimmed, ListShaped, OpensList, CleanTenant;
    if g.Bare? {
      GlueHead(g.bearer, rest, current, inList);
      OpensListHasColon(g.bearer);
    } else {
      GlueScoped(g, rest, current, inList);
    }
  }

  lemma RenderFromFirst(g: Grant)
    requires !g.Bare? && g.ListFragments() != []
    ensures var list, first := g.ListFragments(), g.bearer + ":tenant=" + g.ListFragments()[0];
            g.Render() == if list[1..] == [] then first else first + "," + Join(list[1..], ',')
  {
    var list, head := g.ListFragments(), g.bearer + ":tenant=";
    if |list| > 1 {
      assert head + (list[0] + [','] + Join(list[1..], ',')) == head + list[0] + "," + Join(list[1..], ',');
    }
  }

  /** How many bare grants disappear into a tenant list. */
  function Losses(gs: seq<Grant>, inList: bool): nat {
    if gs == [] then 0
    else if Swallowed(gs[0], inList) then 1 + Losses(gs[1..], true)
    else Losses(gs[1..], !gs[0].Bare?)
  }

  lemma {:induction false} GlueAll(gs: seq<Grant>, current: string, inList: bool)
    requires AllValid(gs) && forall g :: g in gs && !g.Bare? ==> g.ListFragments() != []
    requires Losses(gs, inList) == 0
    ensures Glue(AllFragments(gs), current, inList) == Flush(current) + RenderAll(gs)
    decreases |gs|
  {
    hide Glue, Fragments, Grant.Render, Grant.Valid, Swallowed;
    if gs == [] {
      assert AllFragments(gs) == [] && RenderAll(gs) == [];
      GlueNothing(current, inList);
    } else {
      var g, rest := gs[0], gs[1..];
      assert g in gs;
      GlueGrant(g, AllFragments(rest), current, inList);
      GlueAll(rest, g.Render(), !g.Bare?);
      RenderNotEmpty(g);
      assert Flush(g.Render()) == [g.Render()];
      assert RenderAll(gs) == [g.Render()] + RenderAll(rest);
    }
  }

  lemma GlueNothing(current: string, inList: bool)
    ensures Glue([], current, inList) == Flush(current)
  {
  }

  lemma RenderNotEmpty(g: Grant)
    requires g.Valid()
    ensures g.Render() != ""
  {
  }

  // ------------------------------------------------------------------
  // Parsing one printed entry
  // ------------------------------------------------------------------

  lemma TenantListScope(g: Grant)
    requires g.Valid() && !g.Bare?
    ensures g.ListFragments() != [] && ListScope(g.ListFragments()) == Ok(g.Scope())
  {
    ListIsClean(g);
    var list := g.ListFragments();
    forall i | 0 <= i < |list| ensures ListShaped(Trim(list[i])) && Trim(list[i]) == list[i] {
      assert list[i] in list;
      TrimTrimmed(list[i]);
    }
    FirstBadNone(list);
    ScopeOfGoodList(list);
    hide Trim, ParseU64, ListScope;
    if g.Wild? {
      assert list[0] in list;
      assert IdsOf(list) == {};
    } else {
      forall i | 0 <= i < |list| ensures ParseU64(list[i]) == Some(g.ids[i]) && list[i] != "*" {
        assert g.ids[i] in g.ids;
        DecimalRoundTrip(g.ids[i]);
        assert IsDigit(list[i][0]);
      }
      DecimalIds(list, g.ids);
      assert IdsOf(list) == g.Scope().ids;
    }
  }

  lemma DecimalIds(list: seq<string>, ids: seq<nat>)
    requires |list| == |ids|
    requires forall i :: 0 <= i < |list| ==> Trim(list[i]) == list[i] && ParseU64(list[i]) == Some(ids[i]) && list[i] != "*"
    ensures !HasWildcard(list) && IdsOf(list) == set id | id in ids
  {
    hide Trim, ParseU64;
    var all := set id | id in ids;
    forall id | id in ids ensures id in IdsOf(list) {
      var i :| 0 <= i < |ids| && ids[i] == id;
      assert list[i] in list;
    }
    assert IdsOf(list) <= all;
  }

  /** A printed entry parses to its own bearer and scope. */
  lemma EntryRoundTrip(g: Grant)
    requires g.Valid()
    ensures Entry(g.Render()) == Ok((g.bearer, g.Scope()))
    ensures IsBare(g.Render()) <==> g.Bare?
  {
    if g.Bare? {
      TrimTrimmed(g.bearer);
      SplitOnceLaws(g.bearer, ':');
      hide Trim, ListScope, OpensList;
    } else {
      TenantListScope(g);
      ListIsClean(g);
      var list := g.ListFragments();
      JoinIsClean(list);
      SplitJoin(list, ',');
      ScopedEntry(g.bearer, Join(list, ','));
      hide Trim, Split, ListScope, Join, Grant.ListFragments, OpensList, Entry;
    }
  }

  /** `bearer:tenant=v` parses to its bearer and whatever the list in `v` grants. */
  lemma ScopedEntry(bearer: string, v: string)
    requires GoodBearer(bearer) && v != "" && Trimmed(v)
    ensures var f := bearer + ":tenant=" + v;
            && !IsBare(f)
            && (ListScope(Split(v, ',')).Ok? ==> Entry(f) == Ok((bearer, ListScope(Split(v, ',')).value)))
  {
    OpeningFragment(bearer, v);
    assert "tenant=" + v == "tenant" + ['='] + v;
    SplitOnceAt("tenant", '=', v);
    TrimTrimmed(bearer + ":tenant=" + v);
    TrimTrimmed(bearer);
    TrimTrimmed("tenant=" + v);
    TrimTrimmed(v);
    hide Trim, Split, ListScope, OpensList, SplitOnce;
  }

  lemma {:induction false} JoinIsClean(list: seq<string>)
    requires list != [] && forall f :: f in list ==> CleanTenant(f)
    ensures Join(list, ',') != "" && Trimmed(Join(list, ','))
  {
    assert list[0] in list;
    if |list| > 1 {
      JoinIsClean(list[1..]);
      var s, tail := Join(list, ','), Join(list[1..], ',');
      assert s[0] == list[0][0] && s[|s| - 1] == tail[|tail| - 1];
    }
  }

  // ------------------------------------------------------------------
  // The round trip
  // ------------------------------------------------------------------

  /** What a list of grants means. */
  ghost predicate Means(out: ParsedTokens, gs: seq<Grant>) {
    && out.deprecatedCount == Bares(gs)
    && out.scopes.Keys == (set g | g in gs :: g.bearer)
    && forall g :: g in gs ==> g.bearer in out.scopes && out.scopes[g.bearer] == g.Scope()
  }

  lemma {:induction false} BaresAppend(gs: seq<Grant>, g: Grant)
    ensures Bares(gs + [g]) == Bares(gs) + if g.Bare? then 1 else 0
  {
    if gs != [] {
      assert (gs + [g])[1..] == gs[1..] + [g];
      BaresAppend(gs[1..], g);
    } else {
      assert (gs + [g])[1..] == [];
    }
  }

  function Granted(gs: seq<Grant>): map<string, TenantScope> {
    if gs == [] then map[] else Granted(gs[..|gs| - 1])[gs[|gs| - 1].bearer := gs[|gs| - 1].Scope()]
  }

  lemma {:induction false} CollectRendered(gs: seq<Grant>)
    requires AllValid(gs)
    ensures Collect(RenderAll(gs)) == ParsedTokens(Granted(gs), Bares(gs))
    decreases |gs|
  {
    hide Entry, Grant.Render, Grant.Valid, Grant.Scope, IsBare;
    if gs != [] {
      var n := |gs| - 1;
      var init, g := gs[..n], gs[n];
      CollectRendered(init);
      EntryRoundTrip(g);
      BareMeansNoColon(g.Render());
      BaresAppend(init, g);
      assert gs == init + [g];
      assert RenderAll(gs)[..n] == RenderAll(init) && RenderAll(gs)[n] == g.Render();
    }
  }

  lemma {:induction false} GrantedAt(gs: seq<Grant>, i: nat)
    requires DistinctBearers(gs) && i < |gs|
    ensures gs[i].bearer in Granted(gs) && Granted(gs)[gs[i].bearer] == gs[i].Scope()
    decreases |gs|
  {
    hide Grant.Scope;
    if i < |gs| - 1 {
      GrantedAt(gs[..|gs| - 1], i);
    }
  }

  lemma {:induction false} GrantedKeys(gs: seq<Grant>, b: string)
    requires b in Granted(gs)
    ensures exists g :: g in gs && g.bearer == b
    decreases |gs|
  {
    hide Grant.Scope;
    var n := |gs| - 1;
    if b == gs[n].bearer {
      assert gs[n] in gs;
    } else {
      GrantedKeys(gs[..n], b);
    }
  }

  lemma GrantedMeans(gs: seq<Grant>)
    requires DistinctBearers(gs)
    ensures Means(ParsedTokens(Granted(gs), Bares(gs)), gs)
  {
    hide Granted, Grant.Scope;
    forall g | g in gs ensures g.bearer in Granted(gs) && Granted(gs)[g.bearer] == g.Scope() {
      var i :| 0 <= i < |gs| && gs[i] == g;
      GrantedAt(gs, i);
    }
    forall b | b in Granted(gs) ensures exists g :: g in gs && g.bearer == b {
      GrantedKeys(gs, b);
    }
  }

  lemma BareMeansNoColon(s: string)
    ensures IsBare(s) <==> ':' !in s
  {
  }

  lemma {:induction false} NoClashNoLosses(gs: seq<Grant>, inList: bool)
    requires NoClash(gs) && (gs != [] ==> !Swallowed(gs[0], inList))
    ensures Losses(gs, inList) == 0
    decreases |gs|
  {
    if |gs| > 1 {
      var rest := gs[1..];
      forall i | 0 <= i < |rest| ensures !ClashAt(rest, i) {
        assert !ClashAt(gs, i + 1);
      }
      assert !ClashAt(gs, 1);
      NoClashNoLosses(rest, !gs[0].Bare?);
    }
  }

  lemma {:induction false} ClashLoses(gs: seq<Grant>, inList: bool, i: nat)
    requires i < |gs| && ClashAt(gs, i)
    ensures Losses(gs, inList) > 0
    decreases |gs|
  {
    if !Swallowed(gs[0], inList) {
      if i > 1 {
        assert ClashAt(gs[1..], i - 1);
        ClashLoses(gs[1..], !gs[0].Bare?, i - 1);
      } else {
        assert Swallowed(gs[1..][0], true);
      }
    }
  }

  lemma {:induction false} CountBareAppend(a: seq<string>, b: seq<string>)
    ensures CountBare(a + b) == CountBare(a) + CountBare(b)
    decreases |b|
  {
    if b == [] {
      assert a + b == a;
    } else {
      var m := |b| - 1;
      assert (a + b)[..|a| + m] == a + b[..m];
      CountBareAppend(a, b[..m]);
    }
  }

  /** However the grants were glued, exactly the swallowed ones are missing from the legacy count. */
  lemma {:induction false} GlueCount(gs: seq<Grant>, current: string, inList: bool)
    requires AllValid(gs) && forall g :: g in gs && !g.Bare? ==> g.ListFragments() != []
    requires inList ==> current != "" && ':' in current
    ensures CountBare(Glue(AllFragments(gs), current, inList)) == CountBare(Flush(current)) + Bares(gs) - Losses(gs, inList)
    decreases |gs|
  {
    hide Glue, Fragments, Grant.Render, Grant.Valid;
    if gs == [] {
      assert AllFragments(gs) == [];
      GlueNothing(current, inList);
    } else {
      var g, rest := gs[0], gs[1..];
      assert g in gs;
      GlueGrant(g, AllFragments(rest), current, inList);
      if Swallowed(g, inList) {
        var longer := current + "," + g.bearer;
        assert ':' in longer by {
          var k :| 0 <= k < |current| && current[k] == ':';
          assert longer[k] == ':';
        }
        GlueCount(rest, longer, true);
        CountOne(current);
        CountOne(longer);
      } else {
        EntryRoundTrip(g);
        RenderNotEmpty(g);
        GlueCount(rest, g.Render(), !g.Bare?);
        CountBareAppend(Flush(current), Glue(AllFragments(rest), g.Render(), !g.Bare?));
        CountOne(g.Render());
      }
    }
  }

  lemma CountOne(s: string)
    requires s != ""
    ensures CountBare(Flush(s)) == if IsBare(s) then 1 else 0
  {
    assert [s][..0] == [];
  }

  /**
   The round trip. Print any list of grants with distinct, trimmed bearers free of
   commas and colons. Parsing the text recovers exactly the bearers, their scopes and
   the number of bare grants if and only if no bare bearer that reads like a tenant
   comes right after a grant with a tenant list.
   */
  lemma RoundTripIff(gs: seq<Grant>)
    requires AllValid(gs) && DistinctBearers(gs)
    ensures Means(Collect(Entries(RenderEnv(gs))), gs) <==> NoClash(gs)
  {
    hide Collect, Entry, Split, Grant.Valid, Means;
    if gs == [] {
      EmptyRoundTrip(gs);
    } else {
      EnvFragments(gs);
      if NoClash(gs) {
        NoClashNoLosses(gs, false);
        GlueAll(gs, "", false);
        assert Flush("") + RenderAll(gs) == RenderAll(gs);
        CollectRendered(gs);
        GrantedMeans(gs);
      } else {
        var i :| 0 <= i < |gs| && ClashAt(gs, i);
        ClashLoses(gs, false, i);
        GlueCount(gs, "", false);
        EntriesShaped(RenderEnv(gs));
        CollectLaws(Entries(RenderEnv(gs)));
        MeansCounts(Collect(Entries(RenderEnv(gs))), gs);
      }
    }
  }

  lemma MeansCounts(out: ParsedTokens, gs: seq<Grant>)
    ensures Means(out, gs) ==> out.deprecatedCount == Bares(gs)
  {
  }

  lemma EmptyRoundTrip(gs: seq<Grant>)
    requires gs == []
    ensures Means(Collect(Entries(RenderEnv(gs))), gs)
  {
    assert RenderEnv(gs) == "" && Split("", ',') == [""] && [""][1..] == [];
    assert Entries("") == [];
  }

  /** What a printed bearer may do after parsing: a scoped one may act for exactly the tenants printed, any other for all. */
  lemma AccessIff(gs: seq<Grant>, g: Grant, tenant: nat)
    requires AllValid(gs) && DistinctBearers(gs) && NoClash(gs) && g in gs
    ensures var scopes := Collect(Entries(RenderEnv(gs))).scopes;
            g.bearer in scopes && (scopes[g.bearer].Allows(tenant) <==> !g.Scoped? || tenant in g.ids)
  {
    RoundTripIff(gs);
    hide Collect, Entries, RenderEnv, Grant.Valid, Grant.Render;
  }
}
