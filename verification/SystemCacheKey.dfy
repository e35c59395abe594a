/** The text of the cache keys.  Two requests share a key only when they agree
    on the system, the generation and the forwarded identity, so the pair
    (generation, variant) may stand for the key. */
module SystemCacheKey {
  import opened Common

  function Base(insightsId: string, orgId: string, ownerId: string): string {
    "insights_id=" + (insightsId + ("_org=" + (orgId + ("_user=SYSTEM-" + ownerId))))
  }

  function Digit(n: nat): char
    requires n < 10
  {
    "0123456789"[n]
  }

  function Decimal(n: nat): string {
    if n < 10 then [Digit(n)] else Decimal(n / 10) + [Digit(n % 10)]
  }

  /** An empty forwarded identity counts as none. */
  function Suffix(forwarded: Option<string>): string {
    if forwarded.None? || forwarded.value == "" then "" else "_subman=" + forwarded.value
  }

  function Normal(forwarded: Option<string>): Option<string> {
    if forwarded == Some("") then None else forwarded
  }

  datatype KeyError = InvalidKey

  function MakeSystemKey(insightsId: string, orgId: string, ownerId: string, forwarded: Option<string>, generation: nat)
    : Result<string, KeyError>
  {
    if insightsId == "" || orgId == "" || ownerId == "" then Err(InvalidKey)
    else Ok(Base(insightsId, orgId, ownerId) + (":g" + (Decimal(generation) + Suffix(forwarded))))
  }

  function GenerationKey(insightsId: string, orgId: string, ownerId: string): string {
    "flask_cache_" + (Base(insightsId, orgId, ownerId) + ":gen")
  }

  predicate OccursAt(s: string, text: string, k: nat) {
    k + |text| <= |s| && s[k..k + |text|] == text
  }

  ghost predicate Contains(s: string, text: string) {
    exists k :: OccursAt(s, text, k)
  }

  /** Identifiers that no separator of the key occurs in. */
  ghost predicate Separable(insightsId: string, orgId: string, ownerId: string) {
    !Contains(insightsId, "_org=") && !Contains(orgId, "_user=SYSTEM-") && !Contains(ownerId, ":g")
  }

  /* ---------- injectivity ---------- */

  /** The separator starts with a character it has nowhere else. */
  predicate StartsOnce(separator: string) {
    separator != "" && separator[0] !in separator[1..]
  }

  /** Of two places where a text splits, the later part holds the earlier separator. */
  lemma EarlierSeparator(separator: string, a: string, x: string, b: string, y: string)
    requires StartsOnce(separator) && |a| < |b|
    requires a + (separator + x) == b + (separator + y)
    ensures Contains(b, separator)
  {
    var s, t, d := a + (separator + x), b + (separator + y), |b| - |a|;
    assert s[|a|..|a| + |separator|] == separator;
    assert t[|b|] == separator[0];
    assert forall i :: 1 <= i < |separator| ==> separator[i] == separator[1..][i - 1] && separator[i] != separator[0];
    assert forall i :: 0 <= i < |separator| ==> separator[i] == s[|a| + i];
    assert t[..|b|] == b;
    assert OccursAt(b, separator, |a|);
  }

  lemma SplitUnique(separator: string, a: string, x: string, b: string, y: string)
    requires StartsOnce(separator) && !Contains(a, separator) && !Contains(b, separator)
    requires a + (separator + x) == b + (separator + y)
    ensures a == b && x == y
  {
    if |a| < |b| {
      EarlierSeparator(separator, a, x, b, y);
    } else if |b| < |a| {
      EarlierSeparator(separator, b, y, a, x);
    } else {
      StripPrefix(a, b, separator + x, separator + y);
      StripPrefix(separator, separator, x, y);
    }
  }

  lemma StripPrefix(p: string, q: string, x: string, y: string)
    requires p + x == q + y && |p| == |q|
    ensures p == q && x == y
  {
    assert p == (p + x)[..|p|] && q == (q + y)[..|p|];
    assert x == (p + x)[|p|..] && y == (q + y)[|p|..];
  }

  lemma {:induction false} DecimalDigits(n: nat)
    ensures |Decimal(n)| > 0 && forall c :: c in Decimal(n) ==> '0' <= c <= '9'
  {
    if n >= 10 { DecimalDigits(n / 10); }
  }

  /** The number that a text of digits is read as. */
  function ReadNumber(digits: string): int {
    if digits == "" then 0 else 10 * ReadNumber(digits[..|digits| - 1]) + (digits[|digits| - 1] as int - '0' as int)
  }

  /** The generation is written in decimal, without a leading zero. */
  lemma {:induction false} DecimalReads(n: nat)
    ensures ReadNumber(Decimal(n)) == n && (n > 0 ==> Decimal(n)[0] != '0')
  {
    var d := Decimal(n);
    DecimalDigits(n);
    assert d[|d| - 1] as int == '0' as int + n % 10;
    if n >= 10 {
      DecimalReads(n / 10);
      DecimalDigits(n / 10);
      assert d[..|d| - 1] == Decimal(n / 10);
    } else {
      assert d[..0] == "";
    }
  }

  lemma DecimalInjective(m: nat, n: nat)
    requires Decimal(m) == Decimal(n)
    ensures m == n
  {
    DecimalReads(m);
    DecimalReads(n);
  }

  /** The text of a key; a missing or empty forwarded identity adds nothing. */
  lemma KeyText(i: string, o: string, w: string, f: Option<string>, g: nat)
    ensures MakeSystemKey(i, o, w, f, g).Err? <==> |i| == 0 || |o| == 0 || |w| == 0
    ensures MakeSystemKey(i, o, w, f, g).Ok? ==>
              MakeSystemKey(i, o, w, f, g).value
              == "insights_id=" + i + "_org=" + o + "_user=SYSTEM-" + w + ":g" + Decimal(g)
                 + if f.Some? && |f.value| > 0 then "_subman=" + f.value else ""
  {
    hide Decimal;
    var tail := if f.Some? && |f.value| > 0 then "_subman=" + f.value else "";
    BaseThen(i, o, w, ":g" + (Decimal(g) + tail));
    hide Base;
    Flat("insights_id=", i, "_org=", o, "_user=SYSTEM-", w, ":g", Decimal(g), tail);
  }

  lemma Flat(a: string, b: string, c: string, d: string, e: string, f: string, g: string, h: string, t: string)
    ensures a + b + c + d + e + f + g + h + t == a + (b + (c + (d + (e + (f + (g + (h + t)))))))
  {
    Assoc(g, h, t);
    Assoc(f, g + h, t);
    Assoc(a + b + c + d + e, f, g);
    Assoc(a + b + c + d + e, f + g, h);
    Assoc(f, g, h);
    Assoc(a + b + c + d + e, f + g + h, t);
    Assoc(f, g, h + t);
    Assoc(a + b + c + d, e, f + (g + (h + t)));
    Assoc(a + b + c, d, e + (f + (g + (h + t))));
    Assoc(a + b, c, d + (e + (f + (g + (h + t)))));
    Assoc(a, b, c + (d + (e + (f + (g + (h + t))))));
  }

  lemma Assoc(a: string, b: string, c: string)
    ensures (a + b) + c == a + (b + c)
  {}

  /** A base followed by more, with all its parts side by side. */
  lemma BaseThen(i: string, o: string, w: string, x: string)
    ensures Base(i, o, w) + x == "insights_id=" + (i + ("_org=" + (o + ("_user=SYSTEM-" + (w + x)))))
  {
    Assoc("insights_id=", i + ("_org=" + (o + ("_user=SYSTEM-" + w))), x);
    Assoc(i, "_org=" + (o + ("_user=SYSTEM-" + w)), x);
    Assoc("_org=", o + ("_user=SYSTEM-" + w), x);
    Assoc(o, "_user=SYSTEM-" + w, x);
    Assoc("_user=SYSTEM-", w, x);
  }

  /** The base of a key and what comes after it are told apart. */
  lemma BaseUnique(i: string, o: string, w: string, x: string, j: string, p: string, z: string, y: string)
    requires Separable(i, o, w) && Separable(j, p, z)
    requires Base(i, o, w) + (":g" + x) == Base(j, p, z) + (":g" + y)
    ensures i == j && o == p && w == z && x == y
  {
    hide Base, Contains;
    BaseThen(i, o, w, ":g" + x);
    BaseThen(j, p, z, ":g" + y);
    var u, v := "_user=SYSTEM-" + (w + (":g" + x)), "_user=SYSTEM-" + (z + (":g" + y));
    StripPrefix("insights_id=", "insights_id=", i + ("_org=" + (o + u)), j + ("_org=" + (p + v)));
    SplitUnique("_org=", i, o + u, j, p + v);
    SplitUnique("_user=SYSTEM-", o, w + (":g" + x), p, z + (":g" + y));
    SplitUnique(":g", w, x, z, y);
  }

  lemma SuffixShape(f: Option<string>)
    ensures Suffix(f) != "" ==> Suffix(f)[0] == '_' && Normal(f) == Some(Suffix(f)[8..])
    ensures Suffix(f) == "" ==> Normal(f).None?
  {}

  lemma MarkInside(a: string, x: string, b: string, y: string)
    requires |a| < |b| && a + x == b + y && (x != "" ==> x[0] == '_')
    ensures '_' in b
  {
    assert (a + x)[|a|] == (b + y)[|a|] == b[|a|];
  }

  /** Digits end where the suffix begins. */
  lemma SplitDigits(a: string, x: string, b: string, y: string)
    requires '_' !in a && '_' !in b && (x != "" ==> x[0] == '_') && (y != "" ==> y[0] == '_') && a + x == b + y
    ensures a == b && x == y
  {
    if |a| < |b| {
      MarkInside(a, x, b, y);
    } else if |b| < |a| {
      MarkInside(b, y, a, x);
    } else {
      StripPrefix(a, b, x, y);
    }
  }

  lemma GenerationAndVariantUnique(g: nat, f: Option<string>, h: nat, e: Option<string>)
    requires Decimal(g) + Suffix(f) == Decimal(h) + Suffix(e)
    ensures g == h && Normal(f) == Normal(e)
  {
    DecimalDigits(g);
    DecimalDigits(h);
    SuffixShape(f);
    SuffixShape(e);
    var a, x, b, y := Decimal(g), Suffix(f), Decimal(h), Suffix(e);
    SplitDigits(a, x, b, y);
    DecimalInjective(g, h);
  }

  /** Equal keys come from equal systems, generations and forwarded identities. */
  lemma SystemKeyInjective(i: string, o: string, w: string, f: Option<string>, g: nat,
                           j: string, p: string, z: string, e: Option<string>, h: nat)
    requires Separable(i, o, w) && Separable(j, p, z)
    requires MakeSystemKey(i, o, w, f, g).Ok? && MakeSystemKey(i, o, w, f, g) == MakeSystemKey(j, p, z, e, h)
    ensures i == j && o == p && w == z && g == h && Normal(f) == Normal(e)
  {
    hide Separable, Base, Decimal, Suffix;
    BaseUnique(i, o, w, Decimal(g) + Suffix(f), j, p, z, Decimal(h) + Suffix(e));
    GenerationAndVariantUnique(g, f, h, e);
  }

  /** No cached answer is ever stored under the name of a counter. */
  lemma SystemKeyIsNoCounter(i: string, o: string, w: string, f: Option<string>, g: nat, j: string, p: string, z: string)
    requires Separable(i, o, w) && Separable(j, p, z)
    requires MakeSystemKey(i, o, w, f, g).Ok?
    ensures "flask_cache_" + MakeSystemKey(i, o, w, f, g).value != GenerationKey(j, p, z)
  {
    DecimalDigits(g);
    var x := Decimal(g) + Suffix(f);
    assert x[0] == Decimal(g)[0] && Decimal(g)[0] in Decimal(g);
    assert "en"[0] == 'e' && ":gen" == ":g" + "en";
    if "flask_cache_" + MakeSystemKey(i, o, w, f, g).value == GenerationKey(j, p, z) {
      StripPrefix("flask_cache_", "flask_cache_", Base(i, o, w) + (":g" + x), Base(j, p, z) + ":gen");
      BaseUnique(i, o, w, x, j, p, z, "en");
    }
  }

  /* ---------- identifiers that hold a separator ---------- */

  /** What an owner can add to look like a generation and a forwarded identity. */
  function Imitation(m: nat, forwarded: string): string {
    ":g" + (Decimal(m) + ("_subman=" + forwarded))
  }

  lemma ImitationThen(m: nat, forwarded: string, rest: string)
    ensures Imitation(m, forwarded) + rest == Imitation(m, forwarded + rest)
  {
    hide Decimal;
    Assoc(":g", Decimal(m) + ("_subman=" + forwarded), rest);
    Assoc(Decimal(m), "_subman=" + forwarded, rest);
    Assoc("_subman=", forwarded, rest);
  }

  lemma OwnerShifts(i: string, o: string, c: string, more: string, x: string)
    ensures Base(i, o, c + more) + x == Base(i, o, c) + (more + x)
  {
    hide Base;
    BaseThen(i, o, c + more, x);
    BaseThen(i, o, c, more + x);
    Assoc(c, more, x);
  }

  /** Each exclusion is needed: an insights id or organisation with the separator that
      follows it, and an owner that imitates a generation, share their key with another
      system. */
  lemma SeparatorsCollide(a: string, b: string, c: string, d: string, f: Option<string>, g: nat)
    requires a != "" && b != "" && c != "" && d != ""
    ensures MakeSystemKey(a + ("_org=" + b), c, d, f, g) == MakeSystemKey(a, b + ("_org=" + c), d, f, g)
    ensures MakeSystemKey(a, b + ("_user=SYSTEM-" + c), d, f, g) == MakeSystemKey(a, b, c + ("_user=SYSTEM-" + d), f, g)
  {
    var u := "_user=SYSTEM-" + d;
    Assoc(a, "_org=" + b, "_org=" + (c + u));
    Assoc("_org=", b, "_org=" + (c + u));
    Assoc(b, "_org=" + c, u);
    Assoc("_org=", c, u);
    Assoc(b, "_user=SYSTEM-" + c, u);
    Assoc("_user=SYSTEM-", c, u);
  }

  lemma OwnerCollides(a: string, b: string, c: string, d: string, m: nat, g: nat)
    requires a != "" && b != "" && c != "" && d != ""
    ensures MakeSystemKey(a, b, c + Imitation(m, d), None, g) == MakeSystemKey(a, b, c, Some(d + (":g" + Decimal(g))), m)
  {
    hide Base, Decimal;
    var rest := ":g" + (Decimal(g) + Suffix(None));
    assert Decimal(g) + Suffix(None) == Decimal(g);
    OwnerShifts(a, b, c, Imitation(m, d), rest);
    ImitationThen(m, d, rest);
  }

  /** And so would a cached answer share its name with the counter of another system. */
  lemma CounterCollides(i: string, o: string, w: string, forwarded: string, m: nat)
    requires i != "" && o != "" && w != ""
    ensures MakeSystemKey(i, o, w, Some(forwarded + ":gen"), m).Ok?
    ensures "flask_cache_" + MakeSystemKey(i, o, w, Some(forwarded + ":gen"), m).value
         == GenerationKey(i, o, w + Imitation(m, forwarded))
  {
    hide Base, Decimal;
    OwnerShifts(i, o, w, Imitation(m, forwarded), ":gen");
    ImitationThen(m, forwarded, ":gen");
  }
}
