/** Structured tags and their string form: percent-encoding (sections 2.1 and 2.3
    of RFC 3986) and the regular expression that splits a tag string.  Texts are
    their UTF-8 bytes. */
module TagCodec {
  import opened Common

  newtype Byte = b: int | 0 <= b < 256

  type Text = seq<Byte>

  const PERCENT: Byte := 0x25
  const SLASH: Byte := 0x2F
  const EQUALS: Byte := 0x3D
  const NEWLINE: Byte := 0x0A

  /** The bytes of "null". */
  const NULL_TEXT: Text := [0x6E, 0x75, 0x6C, 0x6C]

  datatype Tag = Tag(namespace: Option<Text>, key: Text, value: Option<Text>)

  /* ---------- percent-encoding ---------- */

  predicate Unreserved(b: Byte) {
    0x41 <= b <= 0x5A || 0x61 <= b <= 0x7A || 0x30 <= b <= 0x39
    || b == 0x2D || b == 0x2E || b == 0x5F || b == 0x7E
  }

  function HexDigit(n: int): Byte
    requires 0 <= n < 16
  {
    if n < 10 then (0x30 + n) as Byte else (0x41 + n - 10) as Byte
  }

  /** Either case is accepted when decoding. */
  function HexValue(b: Byte): Option<int> {
    if 0x30 <= b <= 0x39 then Some(b as int - 0x30)
    else if 0x41 <= b <= 0x46 then Some(b as int - 0x41 + 10)
    else if 0x61 <= b <= 0x66 then Some(b as int - 0x61 + 10)
    else None
  }

  function QuoteByte(b: Byte): Text {
    if Unreserved(b) then [b] else [PERCENT, HexDigit(b as int / 16), HexDigit(b as int % 16)]
  }

  function Quote(t: Text): Text {
    if t == [] then [] else QuoteByte(t[0]) + Quote(t[1..])
  }

  predicate Escape(t: Text) {
    |t| >= 3 && t[0] == PERCENT && HexValue(t[1]).Some? && HexValue(t[2]).Some?
  }

  /** A percent sign that starts no escape stands for itself. */
  function Unquote(t: Text): Text {
    if t == [] then []
    else if Escape(t) then
      [(HexValue(t[1]).value * 16 + HexValue(t[2]).value) as Byte] + Unquote(t[3..])
    else [t[0]] + Unquote(t[1..])
  }

  /** What quoted text consists of. */
  predicate Plain(t: Text) {
    SLASH !in t && EQUALS !in t && NEWLINE !in t
  }

  lemma {:induction false} QuotePlain(t: Text)
    ensures Plain(Quote(t)) && (Quote(t) == [] <==> t == [])
  {
    if t != [] {
      QuotePlain(t[1..]);
      assert Plain(QuoteByte(t[0]));
    }
  }

  lemma {:induction false} UnquoteQuote(t: Text)
    ensures Unquote(Quote(t)) == t
  {
    if t != [] {
      UnquoteQuote(t[1..]);
      var q, rest := Quote(t), Quote(t[1..]);
      if Unreserved(t[0]) {
        assert q[1..] == rest;
      } else {
        var hi, lo := t[0] as int / 16, t[0] as int % 16;
        assert HexValue(HexDigit(hi)) == Some(hi) && HexValue(HexDigit(lo)) == Some(lo);
        assert q[1] == HexDigit(hi) && q[2] == HexDigit(lo) && q[3..] == rest;
      }
      assert t == [t[0]] + t[1..];
    }
  }

  /* ---------- the text of the encoding ---------- */

  function Ascii(c: char): Byte
    requires c < 128 as char
  {
    c as int as Byte
  }

  const UPPER_HEX := "0123456789ABCDEF"
  const LOWER_HEX := "0123456789abcdef"

  /** The character stands for a number as a hexadecimal digit. */
  predicate Spells(b: Byte, n: nat) {
    n < 16 && (b as char == UPPER_HEX[n] || b as char == LOWER_HEX[n])
  }

  lemma HexValueIff(b: Byte, n: nat)
    ensures HexValue(b) == Some(n) <==> Spells(b, n)
  {
    if n < 16 {
      HexChars(n);
    }
  }

  lemma HexChars(n: nat)
    requires n < 16
    ensures UPPER_HEX[n] as int == (if n < 10 then 48 + n else 55 + n)
    ensures LOWER_HEX[n] as int == (if n < 10 then 48 + n else 87 + n)
  {}

  lemma {:induction false} QuoteJoin(a: Text, b: Text)
    ensures Quote(a + b) == Quote(a) + Quote(b)
  {
    hide QuoteByte;
    if a == [] {
      assert a + b == b;
    } else {
      QuoteJoin(a[1..], b);
      assert (a + b)[0] == a[0] && (a + b)[1..] == a[1..] + b;
    }
  }

  /** Letters, digits and the four marks are left as they are; every other byte becomes a
      percent sign and two upper-case digits. */
  lemma QuotedByte(x: Byte)
    ensures var c := x as char;
            Quote([x]) == if 'A' <= c <= 'Z' || 'a' <= c <= 'z' || '0' <= c <= '9' || c in "-._~" then [x]
                          else [Ascii('%'), Ascii(UPPER_HEX[x as int / 16]), Ascii(UPPER_HEX[x as int % 16])]
  {
    HexChars(x as int / 16);
    HexChars(x as int % 16);
    assert Quote([x]) == QuoteByte(x);
  }

  /** Two digits after a percent sign, in either case, are one byte. */
  lemma UnquotedEscape(t: Text, m: nat, n: nat)
    requires |t| >= 3 && t[0] == Ascii('%') && Spells(t[1], m) && Spells(t[2], n)
    ensures 16 * m + n < 256 && Unquote(t) == [(16 * m + n) as Byte] + Unquote(t[3..])
  {
    HexValueIff(t[1], m);
    HexValueIff(t[2], n);
    hide HexValue, Spells;
  }

  predicate IsHex(b: Byte) {
    exists n: nat :: n < 16 && Spells(b, n)
  }

  lemma IsHexIff(b: Byte)
    ensures HexValue(b).Some? <==> IsHex(b)
  {
    if HexValue(b).Some? {
      HexValueIff(b, HexValue(b).value);
    }
    if n: nat :| n < 16 && Spells(b, n) {
      HexValueIff(b, n);
    }
  }

  /** Everything else stands for itself. */
  lemma UnquotedOther(t: Text)
    requires t != [] && !(|t| >= 3 && t[0] == Ascii('%') && IsHex(t[1]) && IsHex(t[2]))
    ensures Unquote(t) == [t[0]] + Unquote(t[1..])
  {
    if |t| >= 3 {
      IsHexIff(t[1]);
      IsHexIff(t[2]);
    }
    hide HexValue, IsHex;
  }

  /* ---------- the regular expression ---------- */

  datatype Parts = Parts(namespace: Option<Text>, key: Text, value: Option<Text>)

  /** A slash directly before an equals sign, on the first line. */
  predicate SlashEquals(t: Text) {
    exists j :: 0 <= j < |t| - 1 && t[j] == SLASH && t[j + 1] == EQUALS && NEWLINE !in t[..j]
  }

  function Before(c: Byte, t: Text): (n: nat)
    ensures n <= |t| && c !in t[..n] && (n < |t| ==> t[n] == c)
  {
    if t == [] || t[0] == c then 0
    else
      var n := Before(c, t[1..]);
      assert t[..n + 1] == [t[0]] + t[1..][..n];
      n + 1
  }

  /** The part of the expression after the optional namespace. */
  function MatchKeyValue(namespace: Option<Text>, t: Text): Option<Parts> {
    var n := Before(EQUALS, t);
    if SlashEquals(t) || n == 0 then None
    else if n == |t| then Some(Parts(namespace, t, None))
    else
      var value := t[n + 1..];
      if value == [] || EQUALS in value then None else Some(Parts(namespace, t[..n], Some(value)))
  }

  /** The namespace group is tried first and given up if the rest then fails. */
  function Parse(s: Text): Option<Parts> {
    var i := Before(SLASH, s);
    var withNamespace := if i < |s| && EQUALS !in s[..i] then MatchKeyValue(Some(s[..i]), s[i + 1..]) else None;
    if withNamespace.Some? then withNamespace else MatchKeyValue(None, s)
  }

  /** Reference definition: the ways the expression can divide a string. */
  predicate Divides(s: Text, p: Parts) {
    && (p.namespace.Some? ==> SLASH !in p.namespace.value && EQUALS !in p.namespace.value)
    && p.key != [] && EQUALS !in p.key
    && (p.value.Some? ==> p.value.value != [] && EQUALS !in p.value.value)
    && var rest := p.key + (if p.value.Some? then [EQUALS] + p.value.value else []);
       s == (if p.namespace.Some? then p.namespace.value + [SLASH] else []) + rest && !SlashEquals(rest)
  }

  lemma {:induction false} BeforeIs(c: Byte, a: Text, b: Text)
    requires c !in a && (b != [] ==> b[0] == c)
    ensures Before(c, a + b) == |a|
  {
    if a == [] {
      assert a + b == b;
    } else {
      assert a[0] in a && (a + b)[1..] == a[1..] + b;
      BeforeIs(c, a[1..], b);
    }
  }

  lemma KeyValueSound(namespace: Option<Text>, t: Text)
    requires MatchKeyValue(namespace, t).Some?
    requires namespace.Some? ==> SLASH !in namespace.value && EQUALS !in namespace.value
    ensures var p := MatchKeyValue(namespace, t).value;
            p.namespace == namespace
            && Divides((if namespace.Some? then namespace.value + [SLASH] else []) + t, p)
  {
    var p := MatchKeyValue(namespace, t).value;
    assert t == p.key + (if p.value.Some? then [EQUALS] + p.value.value else []);
  }

  /** What is parsed is a division of the string. */
  lemma ParseSound(s: Text)
    requires Parse(s).Some?
    ensures Divides(s, Parse(s).value)
  {
    hide MatchKeyValue, SlashEquals, Divides;
    var i := Before(SLASH, s);
    if i < |s| && EQUALS !in s[..i] && MatchKeyValue(Some(s[..i]), s[i + 1..]).Some? {
      KeyValueSound(Some(s[..i]), s[i + 1..]);
      assert s == s[..i] + [SLASH] + s[i + 1..];
    } else {
      KeyValueSound(None, s);
      assert [] + s == s;
    }
  }

  lemma KeyValueComplete(p: Parts, s: Text)
    requires Divides(s, p)
    ensures MatchKeyValue(p.namespace, p.key + (if p.value.Some? then [EQUALS] + p.value.value else [])) == Some(p)
  {
    var tail := if p.value.Some? then [EQUALS] + p.value.value else [];
    BeforeIs(EQUALS, p.key, tail);
    if p.value.Some? {
      assert (p.key + tail)[|p.key| + 1..] == p.value.value;
      assert (p.key + tail)[..|p.key|] == p.key;
    } else {
      assert p.key + tail == p.key;
    }
  }

  lemma CompleteWithNamespace(s: Text, p: Parts)
    requires Divides(s, p) && p.namespace.Some?
    ensures Parse(s) == Some(p)
  {
    KeyValueComplete(p, s);
    hide MatchKeyValue, SlashEquals;
    var n := p.namespace.value;
    var rest := p.key + (if p.value.Some? then [EQUALS] + p.value.value else []);
    assert s == n + ([SLASH] + rest);
    BeforeIs(SLASH, n, [SLASH] + rest);
    assert s[..|n|] == n && s[|n| + 1..] == rest;
  }

  lemma CompleteWithout(s: Text, p: Parts)
    requires Divides(s, p) && p.namespace.None?
    ensures Parse(s).Some? && (Parse(s).value.namespace.None? ==> Parse(s) == Some(p))
  {
    KeyValueComplete(p, s);
    var rest := p.key + (if p.value.Some? then [EQUALS] + p.value.value else []);
    assert s == rest;
    hide SlashEquals, Divides;
    var i := Before(SLASH, s);
    if i < |s| && EQUALS !in s[..i] {
      NamespaceKept(Some(s[..i]), s[i + 1..]);
    }
  }

  lemma NamespaceKept(namespace: Option<Text>, t: Text)
    ensures MatchKeyValue(namespace, t).Some? ==> MatchKeyValue(namespace, t).value.namespace == namespace
  {
  }

  /** A string that can be divided is parsed, and the division is unambiguous: the
      one with a namespace if there is one, else the only one without. */
  lemma ParseComplete(s: Text, p: Parts)
    requires Divides(s, p)
    ensures Parse(s).Some?
    ensures p.namespace.Some? || Parse(s).value.namespace.None? ==> Parse(s) == Some(p)
  {
    hide Parse, Divides;
    if p.namespace.Some? {
      CompleteWithNamespace(s, p);
    } else {
      CompleteWithout(s, p);
    }
  }

  /** A one-line string with a slash directly before an equals sign is no tag. */
  lemma SlashEqualsIsRejected(s: Text, j: nat)
    requires j + 1 < |s| && s[j] == Ascii('/') && s[j + 1] == Ascii('=') && NEWLINE !in s
    ensures Parse(s).None?
  {
    hide Parse;
    if Parse(s).Some? {
      ParseSound(s);
      var p := Parse(s).value;
      var rest := p.key + (if p.value.Some? then [EQUALS] + p.value.value else []);
      SlashEqualsStays(if p.namespace.Some? then p.namespace.value + [SLASH] else [], p.namespace, rest, j);
    }
  }

  lemma SlashEqualsStays(start: Text, namespace: Option<Text>, rest: Text, j: nat)
    requires start == if namespace.Some? then namespace.value + [SLASH] else []
    requires namespace.Some? ==> SLASH !in namespace.value
    requires rest != [] && rest[0] != EQUALS && NEWLINE !in start + rest
    requires j + 1 < |start + rest| && (start + rest)[j] == SLASH && (start + rest)[j + 1] == EQUALS
    ensures SlashEquals(rest)
  {
    assert namespace.Some? ==> forall i :: 0 <= i < |namespace.value| ==> (start + rest)[i] == namespace.value[i];
    var k := j - |start|;
    assert k >= 0;
    assert rest[k] == SLASH && rest[k + 1] == EQUALS;
    assert forall b :: b in rest[..k] ==> b in start + rest;
  }

  /* ---------- UTF-8 ---------- */

  /** The replacement character. */
  const REPLACEMENT: Text := [0xEF, 0xBF, 0xBD]

  /** Bytes in a sequence with this first byte; none start with it if 0 (section 4 of
      RFC 3629). */
  function SequenceLength(b: Byte): nat {
    if b < 0x80 then 1
    else if 0xC2 <= b <= 0xDF then 2
    else if 0xE0 <= b <= 0xEF then 3
    else if 0xF0 <= b <= 0xF4 then 4
    else 0
  }

  predicate Continues(b: Byte) {
    0x80 <= b <= 0xBF
  }

  predicate SecondFits(first: Byte, b: Byte) {
    && Continues(b)
    && (first == 0xE0 ==> b >= 0xA0) && (first == 0xED ==> b <= 0x9F)
    && (first == 0xF0 ==> b >= 0x90) && (first == 0xF4 ==> b <= 0x8F)
  }

  /** The bytes at the start of a text that belong together: a sequence as far as it
      goes, or a single byte that starts none. */
  function Taken(t: Text): (n: nat)
    requires t != []
    ensures 1 <= n <= |t| && (SequenceLength(t[0]) > 0 ==> n <= SequenceLength(t[0]))
  {
    var length := SequenceLength(t[0]);
    if length < 2 || |t| < 2 || !SecondFits(t[0], t[1]) then 1
    else if length < 3 || |t| < 3 || !Continues(t[2]) then 2
    else if length < 4 || |t| < 4 || !Continues(t[3]) then 3
    else 4
  }

  predicate StartsWell(t: Text)
    requires t != []
  {
    Taken(t) == SequenceLength(t[0])
  }

  /** What a string has as its bytes. */
  predicate ValidUtf8(t: Text) {
    t == [] || (StartsWell(t) && ValidUtf8(t[Taken(t)..]))
  }

  /** Decoding in replacement mode: each ill-formed stretch becomes one replacement
      character. */
  function Repair(t: Text): Text {
    if t == [] then []
    else (if StartsWell(t) then t[..Taken(t)] else REPLACEMENT) + Repair(t[Taken(t)..])
  }

  lemma TakenOfPrefix(p: Text, rest: Text)
    requires p != [] && StartsWell(p) && Taken(p) == |p|
    ensures StartsWell(p + rest) && Taken(p + rest) == |p| && (p + rest)[|p|..] == rest
  {
  }

  lemma TakenAlone(t: Text)
    requires t != [] && StartsWell(t)
    ensures StartsWell(t[..Taken(t)]) && Taken(t[..Taken(t)]) == Taken(t)
  {
  }

  lemma {:induction false} RepairIsValid(t: Text)
    ensures ValidUtf8(Repair(t)) && (t != [] ==> Repair(t) != [])
  {
    if t != [] {
      RepairIsValid(t[Taken(t)..]);
      if StartsWell(t) {
        TakenAlone(t);
        TakenOfPrefix(t[..Taken(t)], Repair(t[Taken(t)..]));
      } else {
        TakenOfPrefix(REPLACEMENT, Repair(t[Taken(t)..]));
      }
    }
  }

  /** Exactly the byte texts that are strings decode to themselves. */
  lemma {:induction false} RepairIff(t: Text)
    ensures Repair(t) == t <==> ValidUtf8(t)
  {
    RepairIsValid(t);
    if ValidUtf8(t) && t != [] {
      RepairIff(t[Taken(t)..]);
      assert t == t[..Taken(t)] + t[Taken(t)..];
    }
  }

  /* ---------- tags ---------- */

  datatype TagError = NoMatch | TooLong

  /** Characters in a UTF-8 text: its bytes that are not continuation bytes. */
  function CharCount(t: Text): nat {
    if t == [] then 0 else (if 0x80 <= t[0] < 0xC0 then 0 else 1) + CharCount(t[1..])
  }

  /** Characters of a string: its well-formed sequences. */
  function Sequences(t: Text): nat {
    if t == [] then 0 else 1 + Sequences(t[Taken(t)..])
  }

  lemma {:induction false} CharCountJoin(a: Text, b: Text)
    ensures CharCount(a + b) == CharCount(a) + CharCount(b)
  {
    if a == [] {
      assert a + b == b;
    } else {
      CharCountJoin(a[1..], b);
      assert (a + b)[0] == a[0] && (a + b)[1..] == a[1..] + b;
    }
  }

  lemma OneCharacter(t: Text)
    requires t != [] && StartsWell(t)
    ensures CharCount(t[..Taken(t)]) == 1
  {
    var s := t[..Taken(t)];
    assert forall i :: 0 < i < |s| ==> Continues(s[i]);
    NoCharacter(s[1..]);
  }

  lemma {:induction false} NoCharacter(t: Text)
    requires forall b :: b in t ==> Continues(b)
    ensures CharCount(t) == 0
  {
    if t != [] {
      assert t[0] in t;
      NoCharacter(t[1..]);
    }
  }

  /** A string has as many characters as sequences. */
  lemma {:induction false} CharCountIs(t: Text)
    requires ValidUtf8(t)
    ensures CharCount(t) == Sequences(t)
  {
    if t != [] {
      CharCountIs(t[Taken(t)..]);
      OneCharacter(t);
      CharCountJoin(t[..Taken(t)], t[Taken(t)..]);
      assert t == t[..Taken(t)] + t[Taken(t)..];
    }
  }

  predicate TooLongText(t: Option<Text>) {
    t.Some? && CharCount(t.value) > 255
  }

  function Decode(t: Option<Text>): Option<Text> {
    if t.None? then None else Some(Repair(Unquote(t.value)))
  }

  /** The stored spellings of "no namespace". */
  predicate NullNamespace(n: Option<Text>) {
    n == None || n == Some([]) || n == Some(NULL_TEXT)
  }

  function SerializeNamespace(n: Option<Text>): Option<Text> {
    if NullNamespace(n) then None else n
  }

  function FromString(s: Text): Result<Tag, TagError> {
    var p := Parse(s);
    if p.None? then Err(NoMatch)
    else
      var namespace, key, value := Decode(p.value.namespace), Repair(Unquote(p.value.key)), Decode(p.value.value);
      if TooLongText(namespace) || TooLongText(Some(key)) || TooLongText(value) then Err(TooLong)
      else Ok(Tag(SerializeNamespace(namespace), key, value))
  }

  /** The parts that are read: decoded, and with more than 255 characters refused. */
  lemma FromStringIff(s: Text)
    requires Parse(s).Some?
    ensures var p := Parse(s).value;
            FromString(s) == Err(TooLong) <==>
              || (p.namespace.Some? && Sequences(Repair(Unquote(p.namespace.value))) > 255)
              || Sequences(Repair(Unquote(p.key))) > 255
              || (p.value.Some? && Sequences(Repair(Unquote(p.value.value))) > 255)
  {
    hide Parse, Repair, Unquote, ValidUtf8, CharCount, Sequences;
    var p := Parse(s).value;
    PartLength(p.key);
    if p.namespace.Some? {
      PartLength(p.namespace.value);
    }
    if p.value.Some? {
      PartLength(p.value.value);
    }
  }

  lemma PartLength(t: Text)
    ensures CharCount(Repair(Unquote(t))) == Sequences(Repair(Unquote(t)))
  {
    RepairIsValid(Unquote(t));
    CharCountIs(Repair(Unquote(t)));
  }

  /** No namespace, an empty one and "null" are read as none, and no other. */
  lemma NamespaceIsNoneIff(n: Option<Text>)
    ensures SerializeNamespace(n).None? <==>
              n.None? || |n.value| == 0 || n.value == [Ascii('n'), Ascii('u'), Ascii('l'), Ascii('l')]
    ensures SerializeNamespace(n).Some? ==> SerializeNamespace(n) == n
  {
  }

  function ToString(t: Tag): Text {
    (if t.namespace.None? then [] else Quote(t.namespace.value) + [SLASH])
    + (Quote(t.key) + (if t.value.None? then [] else [EQUALS] + Quote(t.value.value)))
  }

  /** The tags that have a string form of their own. */
  predicate Representable(t: Tag) {
    && t.key != []
    && (t.namespace.Some? ==> !NullNamespace(t.namespace))
    && (t.value.Some? ==> t.value.value != [])
    && !TooLongText(t.namespace) && !TooLongText(Some(t.key)) && !TooLongText(t.value)
  }

  /** Its parts are strings. */
  predicate OfStrings(t: Tag) {
    && ValidUtf8(t.key)
    && (t.namespace.Some? ==> ValidUtf8(t.namespace.value))
    && (t.value.Some? ==> ValidUtf8(t.value.value))
  }

  lemma PlainHasNoSlashEquals(k: Text, v: Text)
    requires Plain(k) && (v == [] || (v[0] == EQUALS && SLASH !in v))
    ensures !SlashEquals(k + v)
  {
    assert SLASH !in k + v;
  }

  lemma UnquoteNonEmpty(t: Text)
    ensures t != [] ==> Unquote(t) != []
  {}

  lemma DecodedIsString(t: Text)
    ensures ValidUtf8(Repair(Unquote(t))) && (t != [] ==> Repair(Unquote(t)) != [])
  {
    UnquoteNonEmpty(t);
    RepairIsValid(Unquote(t));
  }

  /** Only representable tags made of strings come out of any string. */
  lemma ParsedIsRepresentable(s: Text)
    requires FromString(s).Ok?
    ensures Representable(FromString(s).value) && OfStrings(FromString(s).value)
  {
    ParseSound(s);
    hide Parse, Unquote, Repair, ValidUtf8, CharCount;
    var p := Parse(s).value;
    DecodedIsString(p.key);
    if p.namespace.Some? {
      DecodedIsString(p.namespace.value);
    }
    if p.value.Some? {
      DecodedIsString(p.value.value);
    }
  }

  /** The quoted parts of a tag. */
  function QuotedParts(t: Tag): Parts {
    Parts(if t.namespace.Some? then Some(Quote(t.namespace.value)) else None, Quote(t.key),
          if t.value.Some? then Some(Quote(t.value.value)) else None)
  }

  lemma QuotedDecodes(t: Text)
    requires ValidUtf8(t)
    ensures Repair(Unquote(Quote(t))) == t
  {
    UnquoteQuote(t);
    RepairIff(t);
  }

  lemma QuotedPlain(t: Tag)
    ensures Plain(Quote(t.key)) && (Quote(t.key) == [] <==> t.key == [])
    ensures t.namespace.Some? ==> Plain(Quote(t.namespace.value))
    ensures t.value.Some? ==> Plain(Quote(t.value.value)) && (Quote(t.value.value) == [] <==> t.value.value == [])
  {
    QuotePlain(t.key);
    if t.namespace.Some? { QuotePlain(t.namespace.value); }
    if t.value.Some? { QuotePlain(t.value.value); }
  }

  lemma StringDivides(t: Tag)
    requires t.key != [] && (t.value.Some? ==> t.value.value != [])
    ensures Divides(ToString(t), QuotedParts(t))
    ensures t.namespace.None? ==> SLASH !in ToString(t)
  {
    QuotedPlain(t);
    hide Quote, SlashEquals;
    var q := QuotedParts(t);
    PlainHasNoSlashEquals(q.key, if q.value.Some? then [EQUALS] + q.value.value else []);
  }

  /** The expression finds a tag's own parts in its string. */
  lemma StringParses(t: Tag)
    requires t.key != [] && (t.value.Some? ==> t.value.value != [])
    ensures Parse(ToString(t)) == Some(QuotedParts(t))
  {
    StringDivides(t);
    hide Parse, ToString, Divides;
    ParseComplete(ToString(t), QuotedParts(t));
    if t.namespace.None? {
      ParseSound(ToString(t));
      if Parse(ToString(t)).value.namespace.Some? {
        NamespaceHasSlash(ToString(t), Parse(ToString(t)).value);
      }
    }
  }

  lemma RepresentableRoundTrips(t: Tag)
    requires Representable(t) && OfStrings(t)
    ensures FromString(ToString(t)) == Ok(t)
  {
    StringParses(t);
    hide Parse, ToString, Quote, Unquote, Repair, ValidUtf8, CharCount;
    QuotedDecodes(t.key);
    if t.namespace.Some? { QuotedDecodes(t.namespace.value); }
    if t.value.Some? { QuotedDecodes(t.value.value); }
  }

  lemma NamespaceHasSlash(s: Text, p: Parts)
    requires Divides(s, p) && p.namespace.Some?
    ensures SLASH in s
  {
    assert s[|p.namespace.value|] == SLASH;
  }

  /** A tag made of strings survives the trip through its string exactly when it is
      representable, and byte texts that are no strings never do. */
  lemma RoundTripIff(t: Tag)
    ensures FromString(ToString(t)) == Ok(t) <==> Representable(t) && OfStrings(t)
  {
    hide FromString, ToString, Representable, OfStrings;
    if Representable(t) && OfStrings(t) {
      RepresentableRoundTrips(t);
    }
    if FromString(ToString(t)) == Ok(t) {
      ParsedIsRepresentable(ToString(t));
    }
  }
}
