/**
 The string operations of the allowlist parser, stated on the text itself: what trimming
 cuts off, which texts are numerals, and where the re-glue draws the boundaries between
 entries.
 */
module TokenScopeText {
  import opened Options
  import opened Strings
  import opened TokenScope

  // ------------------------------------------------------------------
  // Trimming
  // ------------------------------------------------------------------

  predicate AllSpace(s: string) {
    forall i :: 0 <= i < |s| ==> IsSpace(s[i])
  }

  /** The white space of the Unicode standard, all twenty-five characters of it. */
  lemma SpaceIff(c: char)
    ensures IsSpace(c) <==>
            c in "\U{9}\U{A}\U{B}\U{C}\U{D}\U{20}\U{85}\U{A0}\U{1680}\U{2000}\U{2001}\U{2002}\U{2003}\U{2004}\U{2005}\U{2006}\U{2007}\U{2008}\U{2009}\U{200A}\U{2028}\U{2029}\U{202F}\U{205F}\U{3000}"
  {
    var all := "\U{9}\U{A}\U{B}\U{C}\U{D}\U{20}\U{85}\U{A0}\U{1680}\U{2000}\U{2001}\U{2002}\U{2003}\U{2004}\U{2005}\U{2006}\U{2007}\U{2008}\U{2009}\U{200A}\U{2028}\U{2029}\U{202F}\U{205F}\U{3000}";
    var n := c as int;
    if 0x9 <= n <= 0xD {
      assert all[n - 0x9] == c;
    } else if 0x2000 <= n <= 0x200A {
      assert all[n - 0x2000 + 9] == c;
    }
  }

  lemma {:induction false} TrimStartSkips(a: string, s: string)
    requires AllSpace(a)
    ensures TrimStart(a + s) == TrimStart(s)
  {
    if a == "" {
      assert a + s == s;
    } else {
      assert (a + s)[1..] == a[1..] + s;
      TrimStartSkips(a[1..], s);
    }
  }

  lemma {:induction false} TrimEndSkips(s: string, b: string)
    requires AllSpace(b)
    ensures TrimEnd(s + b) == TrimEnd(s)
  {
    if b == "" {
      assert s + b == s;
    } else {
      assert (s + b)[..|s + b| - 1] == s + b[..|b| - 1];
      TrimEndSkips(s, b[..|b| - 1]);
    }
  }

  lemma {:induction false} TrimStartCuts(s: string) returns (a: string)
    ensures AllSpace(a) && s == a + TrimStart(s)
  {
    a := "";
    if s != "" && IsSpace(s[0]) {
      var rest := TrimStartCuts(s[1..]);
      a := [s[0]] + rest;
    }
  }

  lemma {:induction false} TrimEndCuts(s: string) returns (b: string)
    ensures AllSpace(b) && s == TrimEnd(s) + b
  {
    b := "";
    if s != "" && IsSpace(s[|s| - 1]) {
      var rest := TrimEndCuts(s[..|s| - 1]);
      b := rest + [s[|s| - 1]];
    }
  }

  /** `t` stands in `s` with nothing but white space around it. */
  ghost predicate Within(s: string, t: string) {
    exists a, b :: AllSpace(a) && AllSpace(b) && s == a + t + b
  }

  lemma TrimStandsWithin(s: string)
    ensures Within(s, Trim(s))
  {
    var a := TrimStartCuts(s);
    var b := TrimEndCuts(TrimStart(s));
    assert s == a + Trim(s) + b;
    hide AllSpace, TrimStart, TrimEnd;
  }

  lemma TrimOfPadded(a: string, t: string, b: string)
    requires AllSpace(a) && AllSpace(b) && Trimmed(t)
    ensures Trim(a + t + b) == t
  {
    assert a + t + b == a + (t + b);
    TrimStartSkips(a, t + b);
    if t == "" {
      assert t + b == b + "";
      TrimStartSkips(b, "");
    } else {
      assert TrimStart(t + b) == t + b;
      TrimEndSkips(t, b);
    }
  }

  /** Trimming takes away all the white space at both ends and nothing else. */
  lemma TrimIff(s: string, t: string)
    ensures Trim(s) == t <==> Trimmed(t) && Within(s, t)
  {
    TrimStandsWithin(s);
    TrimLaws(s);
    if Trimmed(t) && Within(s, t) {
      var a, b :| AllSpace(a) && AllSpace(b) && s == a + t + b;
      TrimOfPadded(a, t, b);
    }
    hide Trim, Trimmed, AllSpace;
  }

  // ------------------------------------------------------------------
  // Numerals
  // ------------------------------------------------------------------

  function Zeros(k: nat): string {
    seq(k, i => '0')
  }

  lemma {:induction false} ValueOfPadded(k: nat, d: string)
    requires AllDigits(d)
    ensures AllDigits(Zeros(k) + d) && Value(Zeros(k) + d) == Value(d)
    decreases |d| + k
  {
    var s := Zeros(k) + d;
    if d != "" {
      assert s[..|s| - 1] == Zeros(k) + d[..|d| - 1];
      ValueOfPadded(k, d[..|d| - 1]);
    } else if k > 0 {
      assert s[..|s| - 1] == Zeros(k - 1) + d;
      ValueOfPadded(k - 1, d);
    }
  }

  lemma {:induction false} DigitsArePadded(d: string) returns (k: nat)
    requires d != "" && AllDigits(d)
    ensures d == Zeros(k) + Decimal(Value(d))
  {
    var n := |d| - 1;
    var front, x := d[..n], d[n] as int - '0' as int;
    assert d == front + [Digit(x)] && Value(d) == 10 * Value(front) + x;
    hide Value;
    k := 0;
    if front == "" {
      NothingIsZero();
    } else {
      k := DigitsArePadded(front);
      if Value(front) == 0 {
        assert Zeros(k) + "0" + [Digit(x)] == Zeros(k + 1) + [Digit(x)];
        k := k + 1;
      } else {
        OneMoreDigit(Value(front), x);
        assert Zeros(k) + Decimal(Value(front)) + [Digit(x)] == Zeros(k) + (Decimal(Value(front)) + [Digit(x)]);
        hide Decimal;
      }
    }
  }

  lemma NothingIsZero()
    ensures Value("") == 0
  {
  }

  lemma OneMoreDigit(n: nat, x: nat)
    requires n > 0 && x < 10
    ensures Decimal(10 * n + x) == Decimal(n) + [Digit(x)]
  {
  }

  /** `s` is the decimal numeral of `n`, perhaps with leading zeros and a plus sign. */
  ghost predicate Numeral(s: string, n: nat) {
    exists k: nat :: s == Zeros(k) + Decimal(n) || s == "+" + (Zeros(k) + Decimal(n))
  }

  /** Exactly the numerals of numbers of 64 bits are ids, and each of the number it denotes. */
  lemma ParseU64Iff(s: string, n: nat)
    ensures ParseU64(s) == Some(n) <==> n <= U64_MAX && Numeral(s, n)
  {
    var digits := if s != "" && s[0] == '+' then s[1..] else s;
    if ParseU64(s) == Some(n) {
      var k := DigitsArePadded(digits);
      assert s == digits || s == "+" + digits;
    }
    if n <= U64_MAX && Numeral(s, n) {
      var k: nat :| s == Zeros(k) + Decimal(n) || s == "+" + (Zeros(k) + Decimal(n));
      ValueOfPadded(k, Decimal(n));
      DecimalValue(n);
      var t := Zeros(k) + Decimal(n);
      assert AllDigits(t) && t != "" && IsDigit(t[0]);
      assert digits == t;
    }
    hide Value, Decimal;
  }

  // ------------------------------------------------------------------
  // Where entries begin
  // ------------------------------------------------------------------

  /** A bearer, a colon, and the key of a tenant list. */
  ghost predicate ListHead(frag: string) {
    exists a, w, b :: ':' !in a && AllSpace(w) && frag == a + ":" + (w + ("tenant=" + b))
  }

  /** What ends in something else than white space is not cut. */
  lemma SolidFront(x: string, b: string, t: string, e: string)
    requires x + b == t + e && x != "" && !IsSpace(x[|x| - 1])
    ensures x <= t || !AllSpace(e)
  {
    if |t| < |x| {
      assert (t + e)[|x| - 1] == e[|x| - 1 - |t|];
    } else {
      assert x == (x + b)[..|x|] == (t + e)[..|x|] == t[..|x|];
    }
  }

  lemma StartsIff(s: string)
    ensures StartsWith(Trim(s), "tenant=") <==> exists w, b :: AllSpace(w) && s == w + ("tenant=" + b)
  {
    var key := "tenant=";
    if StartsWith(Trim(s), key) {
      var w := TrimStartCuts(s);
      var e := TrimEndCuts(TrimStart(s));
      assert Trim(s) == key + Trim(s)[|key|..];
      assert s == w + (key + (Trim(s)[|key|..] + e));
    }
    if w, b :| AllSpace(w) && s == w + (key + b) {
      TrimStartSkips(w, key + b);
      assert TrimStart(key + b) == key + b;
      var e := TrimEndCuts(key + b);
      var t := TrimEnd(key + b);
      SolidFront(key, b, t, e);
    }
  }

  lemma OpensListIff(frag: string)
    ensures OpensList(frag) <==> ListHead(frag)
  {
    hide Trim, TrimStart, TrimEnd, SplitOnce, AllSpace;
    SplitOnceLaws(frag, ':');
    if OpensList(frag) {
      var (a, rest) := SplitOnce(frag, ':').value;
      StartsIff(rest);
      var w, b :| AllSpace(w) && rest == w + ("tenant=" + b);
      assert frag == a + ":" + (w + ("tenant=" + b));
    }
    if ListHead(frag) {
      var a, w, b :| ':' !in a && AllSpace(w) && frag == a + ":" + (w + ("tenant=" + b));
      SplitOnceAt(a, ':', w + ("tenant=" + b));
      StartsIff(w + ("tenant=" + b));
    }
  }

  /** Fragment `i` belongs to an earlier one: that one is the head of a list, and from there on everything is an id or a wildcard. */
  ghost predicate Joined(f: seq<string>, i: nat)
    requires i < |f|
  {
    exists j :: 0 <= j < i && ListHead(Trim(f[j])) && forall k :: j < k <= i ==> ListShaped(Trim(f[k]))
  }

  ghost predicate Begins(f: seq<string>, i: nat)
    requires i < |f|
  {
    Trim(f[i]) != "" && !Joined(f, i)
  }

  /** The end of the fragments from `i` on that are joined. */
  ghost function EndFrom(f: seq<string>, i: nat): (e: nat)
    requires i <= |f|
    ensures i <= e <= |f|
    decreases |f| - i
  {
    if i < |f| && Joined(f, i) then EndFrom(f, i + 1) else i
  }

  /** Trimmed fragments `i` to `j` with commas between them. */
  function Text(f: seq<string>, i: nat, j: nat): string
    requires i < j <= |f|
    decreases j
  {
    if i + 1 == j then Trim(f[i]) else Text(f, i, j - 1) + "," + Trim(f[j - 1])
  }

  /** One entry for each fragment that begins one, with the fragments joined to it. */
  ghost function EntriesFrom(f: seq<string>, i: nat): seq<string>
    requires i <= |f|
    decreases |f| - i
  {
    if i == |f| then []
    else (if Begins(f, i) then [Text(f, i, EndFrom(f, i + 1))] else []) + EntriesFrom(f, i + 1)
  }

  lemma ShapedIsNoHead(frag: string)
    requires ListShaped(frag)
    ensures ':' !in frag && frag != "" && !ListHead(frag)
  {
    forall i | 0 <= i < |frag| ensures frag[i] != ':' {
      var digits := if frag[0] == '+' then frag[1..] else frag;
      assert frag[0] == '+' && i > 0 ==> digits[i - 1] == frag[i];
    }
    HeadHasColon(frag);
    hide ListHead, Value;
  }

  lemma HeadHasColon(frag: string)
    ensures ListHead(frag) ==> ':' in frag
  {
    if a, w, b :| ':' !in a && AllSpace(w) && frag == a + ":" + (w + ("tenant=" + b)) {
      assert frag[|a|] == ':';
    }
  }

  lemma JoinedBetween(f: seq<string>, j: nat, i: nat, p: nat)
    requires i < p < |f| && j < p && ListHead(Trim(f[j])) && forall k :: j < k <= p ==> ListShaped(Trim(f[k]))
    ensures j < i ==> Joined(f, i)
  {
  }

  /** With fragments `start` to `p` open, the next one is joined exactly if the first of them is the head of a list and the next can stand in one. */
  lemma JoinedNext(f: seq<string>, start: nat, p: nat)
    requires start < p < |f| && Begins(f, start) && forall k :: start < k < p ==> Joined(f, k)
    ensures Joined(f, p) <==> ListHead(Trim(f[start])) && ListShaped(Trim(f[p]))
  {
    hide Trim, ListHead, ListShaped;
    forall k | start < k < p ensures ListShaped(Trim(f[k])) {
      assert Joined(f, k);
      var j :| 0 <= j < k && ListHead(Trim(f[j])) && forall m :: j < m <= k ==> ListShaped(Trim(f[m]));
    }
    if Joined(f, p) {
      var j :| 0 <= j < p && ListHead(Trim(f[j])) && forall k :: j < k <= p ==> ListShaped(Trim(f[k]));
      if j > start {
        ShapedIsNoHead(Trim(f[j]));
      }
      JoinedBetween(f, j, start, p);
    }
  }

  /** After a blank fragment, and at the beginning, nothing is joined. */
  lemma NotJoinedAfterBlank(f: seq<string>, p: nat)
    requires p < |f| && (p == 0 || Trim(f[p - 1]) == "")
    ensures !Joined(f, p)
  {
    hide Trim;
    HeadHasColon("");
    if j :| 0 <= j < p && ListHead(Trim(f[j])) && forall k :: j < k <= p ==> ListShaped(Trim(f[k])) {
      if j < p - 1 {
        ShapedIsNoHead(Trim(f[p - 1]));
      }
      assert false;
    }
  }

  lemma EntriesStep(f: seq<string>, p: nat)
    requires p < |f|
    ensures Begins(f, p) ==> EntriesFrom(f, p) == [Text(f, p, EndFrom(f, p + 1))] + EntriesFrom(f, p + 1)
    ensures !Begins(f, p) ==> EntriesFrom(f, p) == EntriesFrom(f, p + 1)
    ensures !Joined(f, p) ==> EndFrom(f, p) == p
    ensures Joined(f, p) ==> EndFrom(f, p) == EndFrom(f, p + 1)
  {
    hide Trim, Joined, Text;
  }

  lemma TextOfOne(f: seq<string>, p: nat)
    requires p < |f|
    ensures Text(f, p, p + 1) == Trim(f[p])
  {
    hide Trim;
  }

  lemma TextStep(f: seq<string>, start: nat, p: nat)
    requires start < p < |f|
    ensures Text(f, start, p + 1) == Text(f, start, p) + "," + Trim(f[p])
  {
    hide Trim;
  }

  /** The re-glue with nothing open. */
  lemma {:induction false} GlueClosed(f: seq<string>, p: nat)
    requires p <= |f| && (p == 0 || Trim(f[p - 1]) == "")
    ensures Glue(f[p..], "", false) == EntriesFrom(f, p)
    decreases |f| - p
  {
    hide Trim, ListShaped, OpensList, Joined, Glue, Text;
    if p == |f| {
      GlueEnd(f, "", false);
    } else {
      NotJoinedAfterBlank(f, p);
      TextOfOne(f, p);
      GlueStep(f, p, "", false);
      EntriesStep(f, p);
      hide EntriesFrom, EndFrom;
      if Trim(f[p]) == "" {
        GlueClosed(f, p + 1);
      } else {
        GlueOpen(f, p, p + 1);
      }
    }
  }

  /** The re-glue with fragments `start` to `p` open. */
  lemma {:induction false} GlueOpen(f: seq<string>, start: nat, p: nat)
    requires start < p <= |f| && Begins(f, start) && forall k :: start < k < p ==> Joined(f, k)
    ensures Glue(f[p..], Text(f, start, p), OpensList(Trim(f[start]))) == [Text(f, start, EndFrom(f, p))] + EntriesFrom(f, p)
    decreases |f| - p
  {
    hide Trim, ListHead, ListShaped, OpensList, Joined, Glue, Text;
    var current, inList := Text(f, start, p), OpensList(Trim(f[start]));
    TextNotEmpty(f, start, p);
    assert Flush(current) == [current];
    hide Flush;
    if p == |f| {
      GlueEnd(f, current, inList);
    } else {
      var frag := Trim(f[p]);
      GlueStep(f, p, current, inList);
      EntriesStep(f, p);
      JoinedNext(f, start, p);
      OpensListIff(Trim(f[start]));
      hide EntriesFrom, EndFrom;
      if frag == "" {
        BlankIsNotShaped();
        GlueClosed(f, p + 1);
      } else if Joined(f, p) {
        ShapedIsNoHead(frag);
        TextStep(f, start, p);
        GlueOpen(f, start, p + 1);
      } else {
        TextOfOne(f, p);
        GlueOpen(f, p, p + 1);
      }
    }
  }

  lemma BlankIsNotShaped()
    ensures !ListShaped("")
  {
  }

  lemma {:induction false} TextNotEmpty(f: seq<string>, i: nat, j: nat)
    requires i < j <= |f| && Trim(f[i]) != ""
    ensures Text(f, i, j) != ""
    decreases j
  {
    hide Trim;
    if i + 1 < j {
      TextNotEmpty(f, i, j - 1);
    }
  }

  /**
   The boundaries, for every input. A fragment between two commas belongs to an earlier one
   if and only if that one is a bearer with the key of a tenant list and everything since
   is an id or a wildcard. Every other fragment that is not blank begins an entry, and the
   entry is that fragment and those that belong to it, trimmed, with commas between them.
   */
  lemma ReGlueExactly(env: string)
    ensures Entries(env) == EntriesFrom(Split(env, ','), 0)
  {
    var f := Split(env, ',');
    assert f[0..] == f;
    GlueClosed(f, 0);
  }
}
