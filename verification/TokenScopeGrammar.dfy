/**
 The grammar of an allowlist entry, stated on the text itself: exactly which texts are
 accepted and for what, and which rule the others break first.
 */
module TokenScopeGrammar {
  import opened Options
  import opened Strings
  import opened TokenScope

  // ------------------------------------------------------------------
  // Tenant lists
  // ------------------------------------------------------------------

  /** A fragment is the wildcard, a tenant id, or malformed. */
  predicate Malformed(frag: string) {
    Trim(frag) != "*" && ParseU64(Trim(frag)) == None
  }

  /** What a list grants: everything if it consists of wildcards, exactly its ids if it consists of ids. */
  ghost predicate Grants(frags: seq<string>, scope: TenantScope) {
    match scope
    case All => forall f :: f in frags ==> Trim(f) == "*"
    case Only(ids) =>
      && (forall f :: f in frags ==> Trim(f) != "*" && ParseU64(Trim(f)).Some?)
      && (forall f :: f in frags && ParseU64(Trim(f)).Some? ==> ParseU64(Trim(f)).value in ids)
      && (forall id :: id in ids ==> exists f :: f in frags && ParseU64(Trim(f)) == Some(id))
  }

  /** `x` is the first malformed fragment. */
  ghost predicate FirstMalformed(frags: seq<string>, x: string) {
    exists i :: 0 <= i < |frags| && Malformed(frags[i]) && Trim(frags[i]) == x && forall j :: 0 <= j < i ==> !Malformed(frags[j])
  }

  ghost predicate Mixed(frags: seq<string>) {
    && (forall f :: f in frags ==> !Malformed(f))
    && (exists f :: f in frags && Trim(f) == "*") && (exists f :: f in frags && Trim(f) != "*")
  }

  lemma {:induction false} FirstBadIff(frags: seq<string>, x: string)
    ensures FirstBad(frags) == Some(x) <==> FirstMalformed(frags, x)
    ensures FirstBad(frags) == None <==> forall f :: f in frags ==> !Malformed(f)
    decreases |frags|
  {
    hide Trim, ParseU64;
    if frags != [] {
      var rest := frags[1..];
      FirstBadIff(rest, x);
      assert Malformed(frags[0]) <==> !ListShaped(Trim(frags[0]));
      if Malformed(frags[0]) {
        assert frags[0] in frags;
      } else {
        assert forall f :: f in frags <==> f == frags[0] || f in rest;
        if FirstMalformed(rest, x) {
          var i :| 0 <= i < |rest| && Malformed(rest[i]) && Trim(rest[i]) == x && forall j :: 0 <= j < i ==> !Malformed(rest[j]);
          assert frags[i + 1] == rest[i];
          forall j | 0 <= j < i + 1 ensures !Malformed(frags[j]) {
            assert j > 0 ==> frags[j] == rest[j - 1];
          }
        }
        if FirstMalformed(frags, x) {
          var i :| 0 <= i < |frags| && Malformed(frags[i]) && Trim(frags[i]) == x && forall j :: 0 <= j < i ==> !Malformed(frags[j]);
          assert rest[i - 1] == frags[i];
          forall j | 0 <= j < i - 1 ensures !Malformed(rest[j]) {
            assert rest[j] == frags[j + 1];
          }
        }
      }
    }
  }

  lemma StarIsNoId()
    ensures ParseU64("*") == None
  {
    assert !IsDigit("*"[0]);
  }

  /** The ids of a list are those of its fragments that are not the wildcard; it has some exactly when such a fragment is well formed. */
  lemma IdsOfList(frags: seq<string>)
    ensures forall f :: f in frags && Trim(f) != "*" && !Malformed(f) ==> ParseU64(Trim(f)).value in IdsOf(frags)
    ensures forall id :: id in IdsOf(frags) ==> exists f :: f in frags && Trim(f) != "*" && ParseU64(Trim(f)) == Some(id)
  {
    hide Trim, ParseU64;
  }

  /** The scope of a list without malformed fragments. */
  lemma WellFormedScope(frags: seq<string>)
    requires forall f :: f in frags ==> !Malformed(f)
    ensures ListScope(frags) ==
            if (exists f :: f in frags && Trim(f) == "*") then (if exists f :: f in frags && Trim(f) != "*" then Err(WildcardMixedWithIds) else Ok(All))
            else Ok(Only(IdsOf(frags)))
  {
    FirstBadIff(frags, "");
    IdsOfList(frags);
    hide Trim, ParseU64, FirstBad, IdsOf;
    if exists f :: f in frags && Trim(f) != "*" {
      var f :| f in frags && Trim(f) != "*";
      assert ParseU64(Trim(f)).value in IdsOf(frags);
    } else {
      assert IdsOf(frags) == {};
    }
  }

  lemma GrantsIds(frags: seq<string>, ids: set<nat>)
    requires forall f :: f in frags ==> !Malformed(f) && Trim(f) != "*"
    ensures Grants(frags, Only(ids)) <==> ids == IdsOf(frags)
  {
    IdsOfList(frags);
    hide Trim, ParseU64, IdsOf;
    if Grants(frags, Only(ids)) {
      forall id | id in ids ensures id in IdsOf(frags) {
        var f :| f in frags && ParseU64(Trim(f)) == Some(id);
        assert !Malformed(f);
      }
      forall id | id in IdsOf(frags) ensures id in ids {
        var f :| f in frags && Trim(f) != "*" && ParseU64(Trim(f)) == Some(id);
      }
    }
  }

  /** A list is accepted for a scope exactly when it grants that scope. */
  lemma ListAcceptedIff(frags: seq<string>, scope: TenantScope)
    requires frags != []
    ensures ListScope(frags) == Ok(scope) <==> Grants(frags, scope)
  {
    assert frags[0] in frags;
    StarIsNoId();
    ListRefusedIff(frags, "");
    hide Trim, ParseU64, FirstBad, IdsOf, ListScope, FirstMalformed;
    if forall f :: f in frags ==> !Malformed(f) {
      WellFormedScope(frags);
      if scope.Only? && forall f :: f in frags ==> Trim(f) != "*" {
        GrantsIds(frags, scope.ids);
      }
    } else {
      FirstMalformedExists(frags);
    }
  }

  lemma FirstMalformedExists(frags: seq<string>)
    requires exists f :: f in frags && Malformed(f)
    ensures ListScope(frags).Err?
  {
    FirstBadIff(frags, "");
    hide Trim, ParseU64, FirstBad, IdsOf;
  }

  /** Otherwise the first malformed fragment is the error, or the mixture. */
  lemma ListRefusedIff(frags: seq<string>, x: string)
    ensures ListScope(frags) == Err(InvalidTenant(x)) <==> FirstMalformed(frags, x)
    ensures ListScope(frags) == Err(WildcardMixedWithIds) <==> Mixed(frags)
    ensures ListScope(frags).Err? ==> ListScope(frags).error.InvalidTenant? || ListScope(frags).error.WildcardMixedWithIds?
  {
    FirstBadIff(frags, x);
    hide Trim, ParseU64, FirstBad, IdsOf, FirstMalformed;
    if forall f :: f in frags ==> !Malformed(f) {
      WellFormedScope(frags);
    }
  }

  // ------------------------------------------------------------------
  // Entries
  // ------------------------------------------------------------------

  /** The text is cut at its first colon; both sides are trimmed. */
  ghost predicate Cut(text: string, bearer: string, rest: string) {
    exists before, after :: text == before + ":" + after && ':' !in before && bearer == Trim(before) && rest == Trim(after)
  }

  lemma CutIff(text: string, bearer: string, rest: string)
    ensures Cut(text, bearer, rest) <==>
            SplitOnce(text, ':').Some? && bearer == Trim(SplitOnce(text, ':').value.0) && rest == Trim(SplitOnce(text, ':').value.1)
  {
    SplitOnceLaws(text, ':');
    if Cut(text, bearer, rest) {
      var before, after :| text == before + ":" + after && ':' !in before && bearer == Trim(before) && rest == Trim(after);
      SplitOnceAt(before, ':', after);
      assert text == before + [':'] + after;
    }
    if SplitOnce(text, ':').Some? {
      var (a, b) := SplitOnce(text, ':').value;
      assert text == a + ":" + b;
    }
    hide Trim, SplitOnce;
  }

  /** The rest is a key and a value around its first equals sign. */
  predicate KeyValue(rest: string, key: string, v: string) {
    rest == key + "=" + v && '=' !in key
  }

  lemma KeyValueIff(rest: string, key: string, v: string)
    ensures KeyValue(rest, key, v) <==> SplitOnce(rest, '=') == Some((key, v))
    ensures '=' !in rest <==> SplitOnce(rest, '=') == None
  {
    SplitOnceLaws(rest, '=');
    if KeyValue(rest, key, v) {
      SplitOnceAt(key, '=', v);
      assert rest == key + ['='] + v;
    }
    hide SplitOnce;
  }

  /** An entry is accepted exactly when it is a bearer alone, for everything, or a bearer, the key `tenant` and a list, for what the list grants. */
  lemma EntryAcceptedIff(s: string, bearer: string, scope: TenantScope)
    ensures Entry(s) == Ok((bearer, scope)) <==>
            || (Trim(s) != "" && ':' !in Trim(s) && bearer == Trim(s) && scope == All)
            || (bearer != "" && exists v :: Cut(Trim(s), bearer, "tenant=" + v) && Trim(v) != "" && Grants(Split(Trim(v), ','), scope))
  {
    var text := Trim(s);
    SplitOnceLaws(text, ':');
    var split := SplitOnce(text, ':');
    if split.Some? {
      var bearer', rest := Trim(split.value.0), Trim(split.value.1);
      forall v ensures Cut(text, bearer, "tenant=" + v) <==> bearer == bearer' && rest == "tenant=" + v {
        CutIff(text, bearer, "tenant=" + v);
      }
      forall v ensures rest == "tenant=" + v <==> SplitOnce(rest, '=') == Some(("tenant", v)) {
        KeyValueIff(rest, "tenant", v);
        assert "tenant" + "=" + v == "tenant=" + v;
      }
      forall v | Trim(v) != "" ensures ListScope(Split(Trim(v), ',')) == Ok(scope) <==> Grants(Split(Trim(v), ','), scope) {
        ListAcceptedIff(Split(Trim(v), ','), scope);
      }
      hide Trim, SplitOnce, Split, ListScope, Grants, Cut;
    } else {
      forall v ensures !Cut(text, bearer, "tenant=" + v) {
        CutIff(text, bearer, "tenant=" + v);
      }
      hide Trim, SplitOnce, Split, ListScope, Grants, Cut;
    }
  }

  /** Every other entry is refused for the first rule it breaks: text, bearer, key, list, fragments, mixture. */
  lemma EntryRefusedFor(s: string, bearer: string, rest: string, key: string, v: string, x: string)
    ensures Entry(s) == Err(EmptyEntry) <==> Trim(s) == ""
    ensures Cut(Trim(s), bearer, rest) ==>
              && (bearer == "" ==> Entry(s) == Err(MissingBearer))
              && (bearer != "" && '=' !in rest ==> Entry(s) == Err(UnknownKey(rest)))
              && (bearer != "" && KeyValue(rest, key, v) && key != "tenant" ==> Entry(s) == Err(UnknownKey(key)))
              && (bearer != "" && KeyValue(rest, "tenant", v) && Trim(v) == "" ==> Entry(s) == Err(EmptyTenantList))
              && (bearer != "" && KeyValue(rest, "tenant", v) && Trim(v) != "" && FirstMalformed(Split(Trim(v), ','), x) ==> Entry(s) == Err(InvalidTenant(x)))
              && (bearer != "" && KeyValue(rest, "tenant", v) && Trim(v) != "" && Mixed(Split(Trim(v), ',')) ==> Entry(s) == Err(WildcardMixedWithIds))
  {
    var text := Trim(s);
    CutIff(text, bearer, rest);
    KeyValueIff(rest, key, v);
    KeyValueIff(rest, "tenant", v);
    ListRefusedIff(Split(Trim(v), ','), x);
    if SplitOnce(text, ':').Some? {
      var own := SplitOnce(Trim(SplitOnce(text, ':').value.1), '=');
      if own.Some? {
        ListRefusedIff(Split(Trim(own.value.1), ','), x);
      }
    }
    hide Trim, SplitOnce, Split, ListScope, KeyValue, Cut, FirstMalformed, Mixed;
  }
}
