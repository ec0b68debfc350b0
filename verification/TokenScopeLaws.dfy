/**
 What the allowlist parser promises for every input: the re-glue loses and invents
 nothing, every accepted bearer and scope is well formed, and the count of legacy
 entries is exact.
 */
module TokenScopeLaws {
  import opened Options
  import opened Strings
  import opened TokenScope

  // ------------------------------------------------------------------
  // Conservation
  // ------------------------------------------------------------------

  /** The non-empty trimmed fragments, in order. */
  function Kept(frags: seq<string>): seq<string> {
    if frags == [] then [] else Flush(Trim(frags[0])) + Kept(frags[1..])
  }

  function SplitAll(entries: seq<string>): seq<string> {
    if entries == [] then [] else Split(entries[0], ',') + SplitAll(entries[1..])
  }

  lemma SplitAllFlush(current: string, rest: seq<string>)
    ensures SplitAll(Flush(current) + rest) == SplitAll(Flush(current)) + SplitAll(rest)
  {
    if current == "" {
      assert Flush(current) + rest == rest;
    } else {
      assert ([current] + rest)[1..] == rest && [current][1..] == [];
    }
  }

  lemma SplitOpen(current: string)
    ensures SplitAll(Flush(current)) == if current == "" then [] else Split(current, ',')
  {
    if current != "" {
      assert [current][1..] == [];
    }
  }

  lemma {:induction false} GlueConserves(frags: seq<string>, current: string, inList: bool)
    requires (forall f :: f in frags ==> ',' !in f) && (inList ==> current != "")
    ensures SplitAll(Glue(frags, current, inList)) == SplitAll(Flush(current)) + Kept(frags)
    decreases |frags|
  {
    hide Trim, ListShaped, OpensList, Split, SplitAll;
    if frags != [] {
      var frag, rest := Trim(frags[0]), frags[1..];
      TrimLaws(frags[0]);
      assert frags[0] in frags && ',' !in frag;
      SplitNone(frag, ',');
      SplitOpen(frag);
      SplitOpen(current);
      SplitOpen("");
      if frag == "" {
        GlueConserves(rest, "", false);
        SplitAllFlush(current, Glue(rest, "", false));
      } else if Continues(inList, frag) {
        GlueConserves(rest, current + "," + frag, true);
        SplitOpen(current + "," + frag);
        SplitAt(current, ',', frag);
        assert current + "," + frag == current + [','] + frag;
      } else {
        GlueConserves(rest, frag, OpensList(frag));
        SplitAllFlush(current, Glue(rest, frag, OpensList(frag)));
      }
    }
  }

  /** Conservation: splitting the glued entries at commas gives exactly the non-empty trimmed fragments of the input, in order. */
  lemma ReGlueConserves(env: string)
    ensures SplitAll(Entries(env)) == Kept(Split(env, ','))
  {
    SplitPieces(env, ',');
    SplitOpen("");
    GlueConserves(Split(env, ','), "", false);
  }

  // ------------------------------------------------------------------
  // Shape of the glued entries
  // ------------------------------------------------------------------

  /** A glued entry: trimmed, not empty, and no comma before its first colon. */
  predicate Shaped(entry: string) {
    entry != "" && Trimmed(entry) && forall i :: 0 <= i < |entry| && entry[i] == ',' ==> ':' in entry[..i]
  }

  lemma ShapedExtend(current: string, frag: string)
    requires Shaped(current) && ':' in current && frag != "" && Trimmed(frag)
    ensures Shaped(current + "," + frag) && ':' in current + "," + frag
  {
    var e := current + "," + frag;
    var k :| 0 <= k < |current| && current[k] == ':';
    forall i | 0 <= i < |e| && e[i] == ',' ensures ':' in e[..i] {
      if i < |current| {
        assert e[..i] == current[..i];
      } else {
        assert e[..i][k] == ':';
      }
    }
    assert e[k] == ':';
  }

  lemma {:induction false} GlueShapes(frags: seq<string>, current: string, inList: bool)
    requires (forall f :: f in frags ==> ',' !in f)
    requires (current == "" || Shaped(current)) && (inList ==> Shaped(current) && ':' in current)
    ensures forall e :: e in Glue(frags, current, inList) ==> Shaped(e)
    decreases |frags|
  {
    hide Trim, ListShaped, OpensList, Shaped;
    if frags != [] {
      var frag, rest := Trim(frags[0]), frags[1..];
      TrimLaws(frags[0]);
      assert frags[0] in frags && ',' !in frag;
      if frag == "" {
        GlueShapes(rest, "", false);
      } else if Continues(inList, frag) {
        ShapedExtend(current, frag);
        GlueShapes(rest, current + "," + frag, true);
      } else {
        OpensListHasColon(frag);
        NoCommaShaped(frag);
        GlueShapes(rest, frag, OpensList(frag));
      }
    }
  }

  lemma NoCommaShaped(frag: string)
    requires frag != "" && Trimmed(frag) && ',' !in frag
    ensures Shaped(frag)
  {
  }

  lemma EntriesShaped(env: string)
    ensures forall e :: e in Entries(env) ==> Shaped(e)
  {
    SplitPieces(env, ',');
    GlueShapes(Split(env, ','), "", false);
  }

  // ------------------------------------------------------------------
  // What one accepted entry looks like
  // ------------------------------------------------------------------

  predicate GoodBearer(b: string) {
    b != "" && Trimmed(b) && ',' !in b && ':' !in b
  }

  lemma {:induction false} ListShapedAll(frags: seq<string>)
    requires FirstBad(frags) == None
    ensures forall f :: f in frags ==> ListShaped(Trim(f))
  {
    if frags != [] {
      ListShapedAll(frags[1..]);
    }
  }

  /** An explicit tenant set is never empty: it would authenticate and authorize nothing. */
  lemma ListScopeNotEmpty(frags: seq<string>)
    requires frags != [] && ListScope(frags).Ok?
    ensures ListScope(frags).value != Only({})
  {
    ListShapedAll(frags);
    if !HasWildcard(frags) {
      var f := frags[0];
      assert f in frags && Trim(f) != "*";
      assert ParseU64(Trim(f)).value in IdsOf(frags);
    }
  }

  lemma AcceptedEntry(entry: string)
    requires Shaped(entry) && Entry(entry).Ok?
    ensures GoodBearer(Entry(entry).value.0) && Entry(entry).value.1 != Only({})
  {
    TrimTrimmed(entry);
    SplitOnceLaws(entry, ':');
    hide Trim, Split, ListScope;
    match SplitOnce(entry, ':')
    case None =>
      forall i | 0 <= i < |entry| ensures entry[i] != ',' {
        assert ':' !in entry[..i];
      }
    case Some((before, after)) =>
      TrimLaws(before);
      forall i | 0 <= i < |before| ensures before[i] != ',' {
        assert entry[i] == before[i] && entry[..i] == before[..i];
      }
      var split := SplitOnce(Trim(after), '=');
      if split.Some? {
        ListScopeNotEmpty(Split(Trim(split.value.1), ','));
      }
  }

  // ------------------------------------------------------------------
  // The collected map
  // ------------------------------------------------------------------

  predicate IsBare(entry: string) {
    ':' !in entry
  }

  function CountBare(entries: seq<string>): nat {
    if entries == [] then 0
    else CountBare(entries[..|entries| - 1]) + (if IsBare(entries[|entries| - 1]) then 1 else 0)
  }

  lemma BareAccepted(entry: string)
    requires Shaped(entry) && IsBare(entry)
    ensures Entry(entry) == Ok((entry, All))
  {
    TrimTrimmed(entry);
    SplitOnceLaws(entry, ':');
  }

  lemma {:induction false} CollectLaws(entries: seq<string>)
    requires forall e :: e in entries ==> Shaped(e)
    ensures forall b :: b in Collect(entries).scopes ==> GoodBearer(b) && Collect(entries).scopes[b] != Only({})
    ensures Collect(entries).deprecatedCount == CountBare(entries)
    decreases |entries|
  {
    hide Entry, Shaped, GoodBearer;
    if entries != [] {
      var n := |entries| - 1;
      CollectLaws(entries[..n]);
      assert entries[n] in entries;
      if IsBare(entries[n]) {
        BareAccepted(entries[n]);
      }
      if Entry(entries[n]).Ok? {
        AcceptedEntry(entries[n]);
      }
    }
  }

  /** For every input string: accepted bearers are clean, explicit scopes are not empty, and the legacy count is the number of bare entries. */
  lemma OutputInvariants(env: string)
    ensures var out := Collect(Entries(env));
            && (forall b :: b in out.scopes ==> b != "" && ',' !in b && ':' !in b)
            && (forall b :: b in out.scopes && out.scopes[b].Only? ==> out.scopes[b].ids != {})
            && out.deprecatedCount == CountBare(Entries(env))
  {
    EntriesShaped(env);
    CollectLaws(Entries(env));
    hide Entries, Collect;
  }

  // ------------------------------------------------------------------
  // The legacy count against the size of the map
  // ------------------------------------------------------------------

  function BareBearers(entries: seq<string>): set<string> {
    set e | e in entries && IsBare(e)
  }

  function ScopedBearers(entries: seq<string>): set<string> {
    set e | e in entries && !IsBare(e) && Entry(e).Ok? :: Entry(e).value.0
  }

  lemma {:induction false} CollectKeys(entries: seq<string>)
    requires forall e :: e in entries ==> Shaped(e)
    ensures Collect(entries).scopes.Keys == BareBearers(entries) + ScopedBearers(entries)
    decreases |entries|
  {
    hide Entry, Shaped;
    if entries != [] {
      var n := |entries| - 1;
      var e, init := entries[n], entries[..n];
      CollectKeys(init);
      assert entries == init + [e];
      assert e in entries;
      if IsBare(e) {
        BareAccepted(e);
        assert BareBearers(entries) == BareBearers(init) + {e};
        assert ScopedBearers(entries) == ScopedBearers(init);
      } else if Entry(e).Ok? {
        assert ScopedBearers(entries) == ScopedBearers(init) + {Entry(e).value.0};
        assert BareBearers(entries) == BareBearers(init);
      } else {
        assert ScopedBearers(entries) == ScopedBearers(init);
        assert BareBearers(entries) == BareBearers(init);
      }
    } else {
      assert Collect(entries).scopes.Keys == {};
    }
  }

  /**
   The fuzz harness asserts that the legacy count never exceeds the size of the map.
   It holds exactly when the repetitions among the bare entries are no more than the
   bearers that occur in scoped entries only.
   */
  lemma LegacyCountBoundedIff(env: string)
    ensures var out, es := Collect(Entries(env)), Entries(env);
            out.deprecatedCount <= |out.scopes| <==>
            CountBare(es) - |BareBearers(es)| <= |ScopedBearers(es) - BareBearers(es)|
  {
    var es := Entries(env);
    var bare, scoped := BareBearers(es), ScopedBearers(es);
    EntriesShaped(env);
    CollectLaws(es);
    CollectKeys(es);
    var out := Collect(es);
    assert |out.scopes| == |out.scopes.Keys|;
    assert bare + scoped == bare + (scoped - bare);
  }

  lemma {:induction false} DistinctBareCount(entries: seq<string>)
    requires forall i, j :: 0 <= i < j < |entries| && IsBare(entries[i]) && IsBare(entries[j]) ==> entries[i] != entries[j]
    ensures CountBare(entries) == |BareBearers(entries)|
    decreases |entries|
  {
    if entries != [] {
      var n := |entries| - 1;
      var e, init := entries[n], entries[..n];
      DistinctBareCount(init);
      assert entries == init + [e];
      if IsBare(e) {
        assert e !in BareBearers(init);
        assert BareBearers(entries) == BareBearers(init) + {e};
      } else {
        assert BareBearers(entries) == BareBearers(init);
      }
    }
  }

  /** In particular it holds when no bare bearer is repeated. */
  lemma LegacyCountBoundedWhenDistinct(env: string)
    requires var es := Entries(env);
             forall i, j :: 0 <= i < j < |es| && IsBare(es[i]) && IsBare(es[j]) ==> es[i] != es[j]
    ensures Collect(Entries(env)).deprecatedCount <= |Collect(Entries(env)).scopes|
  {
    DistinctBareCount(Entries(env));
    LegacyCountBoundedIff(env);
  }

  /** And it fails on a list that names one bare bearer twice. */
  lemma RepeatedBareBreaksTheBound()
    ensures Collect(Entries("a,a")) == ParsedTokens(map["a" := All], 2)
  {
    var env := "a" + [','] + "a";
    SplitAt("a", ',', "a");
    SplitNone("a", ',');
    assert env == "a,a" && Split(env, ',') == ["a", "a"];
    TrimTrimmed("a");
    SplitOnceLaws("a", ':');
    assert ["a", "a"][1..] == ["a"] && ["a"][1..] == [];
    assert Glue(["a"], "a", false) == ["a", "a"];
    assert Entries(env) == ["a", "a"];
    assert ["a", "a"][..1] == ["a"] && ["a"][..0] == [];
    assert Entry("a") == Ok(("a", All));
    assert Collect(["a"]) == ParsedTokens(map["a" := All], 1);
  }
}
