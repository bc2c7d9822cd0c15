/**
 * The text stored in a profile hash's `capabilities` field: the output of
 * `JSON.stringify` on an array of capabilities (keys in declaration order,
 * `price` omitted when absent, strings quoted with JSON escapes), and a
 * parser that reads that text back and fails on anything else.
 *
 * Every encoder takes the text that follows what it writes (`rest`), so
 * that a parser can be shown to stop exactly where the encoding ends.
 */
module CapabilityJson {
  import opened Wrappers
  import opened Types

  // ---------------------------------------------------------------------
  // Strings

  function HexDigit(d: nat): (c: char)
    requires d < 16
  {
    if d < 10 then (d + '0' as int) as char else (d - 10 + 'a' as int) as char
  }

  function HexValue(c: char): Option<nat>
  {
    if '0' <= c <= '9' then Some(c as int - '0' as int)
    else if 'a' <= c <= 'f' then Some(c as int - 'a' as int + 10)
    else if 'A' <= c <= 'F' then Some(c as int - 'A' as int + 10)
    else None
  }

  lemma HexRoundTrip(d: nat)
    requires d < 16
    ensures HexValue(HexDigit(d)) == Some(d)
  {
  }

  /** How `JSON.stringify` writes one character inside a string literal. */
  function EscapeChar(c: char): (r: string)
    ensures |r| >= 1
  {
    var n := c as int;
    if c == '"' then ['\\', '"']
    else if c == '\\' then ['\\', '\\']
    else if n == 8 then ['\\', 'b']
    else if n == 9 then ['\\', 't']
    else if n == 10 then ['\\', 'n']
    else if n == 12 then ['\\', 'f']
    else if n == 13 then ['\\', 'r']
    else if n < 32 then ['\\', 'u', '0', '0', HexDigit(n / 16), HexDigit(n % 16)]
    else [c]
  }

  /** The escaped characters of `s`, then `rest`. */
  function EscapeString(s: string, rest: string): string
  {
    if s == [] then rest else EscapeChar(s[0]) + EscapeString(s[1..], rest)
  }

  /** `s` as a JSON string literal, then `rest`. */
  function QuoteString(s: string, rest: string): string
  {
    "\"" + EscapeString(s, "\"" + rest)
  }

  /** `lit` at the head of `s`: what follows it. */
  function Expect(lit: string, s: string): (r: Option<string>)
    ensures r.Some? ==> |r.value| == |s| - |lit|
  {
    if lit <= s then Some(s[|lit|..]) else None
  }

  lemma ExpectConcat(lit: string, rest: string)
    ensures Expect(lit, lit + rest) == Some(rest)
  {
    assert lit <= lit + rest;
    assert (lit + rest)[|lit|..] == rest;
  }

  /** The character an escape sequence (after its backslash) stands for. */
  function ParseEscape(s: string): (r: Option<(char, string)>)
    ensures r.Some? ==> |r.value.1| < |s|
  {
    if |s| == 0 then None
    else if s[0] == '"' || s[0] == '\\' || s[0] == '/' then Some((s[0], s[1..]))
    else if s[0] == 'b' then Some((8 as char, s[1..]))
    else if s[0] == 't' then Some((9 as char, s[1..]))
    else if s[0] == 'n' then Some((10 as char, s[1..]))
    else if s[0] == 'f' then Some((12 as char, s[1..]))
    else if s[0] == 'r' then Some((13 as char, s[1..]))
    else if s[0] == 'u' && |s| >= 5 then
      var h0, h1, h2, h3 := HexValue(s[1]), HexValue(s[2]), HexValue(s[3]), HexValue(s[4]);
      if h0.None? || h1.None? || h2.None? || h3.None? then None
      else
        var n := ((h0.value * 16 + h1.value) * 16 + h2.value) * 16 + h3.value;
        if 0xD800 <= n < 0xE000 then None else Some((n as char, s[5..]))
    else None
  }

  /** The rest of a string literal after its opening quote: its value and what follows the closing quote. */
  function ParseStringBody(s: string): (r: Option<(string, string)>)
    ensures r.Some? ==> |r.value.1| < |s|
    decreases |s|
  {
    if |s| == 0 then None
    else if s[0] == '"' then Some(("", s[1..]))
    else if s[0] == '\\' then
      match ParseEscape(s[1..])
      case None => None
      case Some((c, rest)) =>
        match ParseStringBody(rest)
        case None => None
        case Some((v, after)) => Some(([c] + v, after))
    else if (s[0] as int) < 32 then None
    else
      match ParseStringBody(s[1..])
      case None => None
      case Some((v, after)) => Some(([s[0]] + v, after))
  }

  function ParseQuoted(s: string): (r: Option<(string, string)>)
    ensures r.Some? ==> |r.value.1| < |s|
  {
    match Expect("\"", s)
    case None => None
    case Some(body) => ParseStringBody(body)
  }

  lemma EscapeCharParses(c: char, rest: string)
    ensures ParseStringBody(EscapeChar(c) + rest) == (
      match ParseStringBody(rest)
      case None => None
      case Some((v, after)) => Some(([c] + v, after)))
  {
    var n := c as int;
    var e := EscapeChar(c);
    if c != '"' && c != '\\' && n != 8 && n != 9 && n != 10 && n != 12 && n != 13 && n < 32 {
      HexRoundTrip(n / 16);
      HexRoundTrip(n % 16);
      assert (e + rest)[1..] == ['u', '0', '0', HexDigit(n / 16), HexDigit(n % 16)] + rest;
      assert ParseEscape((e + rest)[1..]) == Some((c, rest));
    } else if e == [c] {
      assert (e + rest)[1..] == rest;
    } else {
      assert (e + rest)[1..] == [e[1]] + rest;
      assert ParseEscape((e + rest)[1..]) == Some((c, rest));
    }
  }

  lemma {:induction false} ParseStringBodyRoundTrip(s: string, rest: string)
    ensures ParseStringBody(EscapeString(s, "\"" + rest)) == Some((s, rest))
    decreases |s|
  {
    if s == [] {
      assert ("\"" + rest)[1..] == rest;
    } else {
      var tail := EscapeString(s[1..], "\"" + rest);
      EscapeCharParses(s[0], tail);
      ParseStringBodyRoundTrip(s[1..], rest);
      assert [s[0]] + s[1..] == s;
    }
  }

  /** A quoted string reads back as itself, leaving what follows it. */
  lemma ParseQuotedRoundTrip(s: string, rest: string)
    ensures ParseQuoted(QuoteString(s, rest)) == Some((s, rest))
  {
    ExpectConcat("\"", EscapeString(s, "\"" + rest));
    ParseStringBodyRoundTrip(s, rest);
  }

  // ---------------------------------------------------------------------
  // The string-valued members of a capability object

  const StringKeys: seq<string> := [
    "id", "name", "description", "category", "contactMethod",
    "contactEndpoint", "approvalMode", "scope", "availability"]

  function StringValues(c: Capability): (vs: seq<string>)
    ensures |vs| == |StringKeys|
  {
    [c.id, c.name, c.description, CategoryName(c.category), ContactMethodName(c.contactMethod),
     c.contactEndpoint, ApprovalModeName(c.approvalMode), c.scope, c.availability]
  }

  /** `"key":`, after a comma unless it is the object's first member. */
  function KeyPrefix(key: string, first: bool): string
  {
    (if first then "" else ",") + "\"" + key + "\":"
  }

  function EncodeMembers(keys: seq<string>, vals: seq<string>, first: bool, rest: string): string
    requires |keys| == |vals|
  {
    if keys == [] then rest
    else KeyPrefix(keys[0], first) + QuoteString(vals[0], EncodeMembers(keys[1..], vals[1..], false, rest))
  }

  function ParseMembers(keys: seq<string>, s: string, first: bool): (r: Option<(seq<string>, string)>)
    ensures r.Some? ==> |r.value.0| == |keys| && |r.value.1| <= |s|
  {
    if keys == [] then Some(([], s))
    else
      match Expect(KeyPrefix(keys[0], first), s)
      case None => None
      case Some(s1) =>
        match ParseQuoted(s1)
        case None => None
        case Some((v, s2)) =>
          match ParseMembers(keys[1..], s2, false)
          case None => None
          case Some((vs, s3)) => Some(([v] + vs, s3))
  }

  lemma {:induction false} ParseMembersRoundTrip(keys: seq<string>, vals: seq<string>, first: bool, rest: string)
    requires |keys| == |vals|
    ensures ParseMembers(keys, EncodeMembers(keys, vals, first, rest), first) == Some((vals, rest))
    decreases |keys|
  {
    if keys != [] {
      var tail := EncodeMembers(keys[1..], vals[1..], false, rest);
      ExpectConcat(KeyPrefix(keys[0], first), QuoteString(vals[0], tail));
      ParseQuotedRoundTrip(vals[0], tail);
      ParseMembersRoundTrip(keys[1..], vals[1..], false, rest);
      assert [vals[0]] + vals[1..] == vals;
    }
  }

  // ---------------------------------------------------------------------
  // One capability object

  function EncodeBool(b: bool, rest: string): string
  {
    (if b then "true" else "false") + rest
  }

  function ParseBool(s: string): (r: Option<(bool, string)>)
    ensures r.Some? ==> |r.value.1| < |s|
  {
    if "true" <= s then Some((true, s[4..]))
    else if "false" <= s then Some((false, s[5..]))
    else None
  }

  lemma ParseBoolRoundTrip(b: bool, rest: string)
    ensures ParseBool(EncodeBool(b, rest)) == Some((b, rest))
  {
    var lit := if b then "true" else "false";
    ExpectConcat(lit, rest);
    if !b {
      assert (lit + rest)[0] == 'f';
    }
  }

  function EncodePrice(price: Option<string>, rest: string): string
  {
    match price
    case None => rest
    case Some(p) => ",\"price\":" + QuoteString(p, rest)
  }

  function ParsePrice(s: string): (r: Option<(Option<string>, string)>)
    ensures r.Some? ==> |r.value.1| <= |s|
  {
    match Expect(",\"price\":", s)
    case None => Some((None, s))
    case Some(s1) =>
      match ParseQuoted(s1)
      case None => None
      case Some((p, s2)) => Some((Some(p), s2))
  }

  lemma ParsePriceRoundTrip(price: Option<string>, rest: string)
    requires |rest| > 0 && rest[0] == '}'
    ensures ParsePrice(EncodePrice(price, rest)) == Some((price, rest))
  {
    match price {
      case None =>
      case Some(p) =>
        ExpectConcat(",\"price\":", QuoteString(p, rest));
        ParseQuotedRoundTrip(p, rest);
    }
  }

  /** `{...}` for one capability, then `rest`. */
  function EncodeCapability(c: Capability, rest: string): (r: string)
    ensures |r| > 0 && r[0] == '{'
  {
    "{" + EncodeMembers(StringKeys, StringValues(c), true,
      ",\"isPublic\":" + EncodeBool(c.isPublic, EncodePrice(c.price, "}" + rest)))
  }

  /** A capability from its nine string members; `None` when an enum name is unknown. */
  function FromMembers(vs: seq<string>, isPublic: bool, price: Option<string>): Option<Capability>
    requires |vs| == |StringKeys|
  {
    match (ParseCategoryId(vs[3]), ParseContactMethod(vs[4]), ParseApprovalMode(vs[6]))
    case (Some(cat), Some(cm), Some(am)) =>
      Some(Capability(vs[0], vs[1], vs[2], cat, cm, vs[5], am, vs[7], vs[8], isPublic, price))
    case _ => None
  }

  lemma FromMembersRoundTrip(c: Capability)
    ensures FromMembers(StringValues(c), c.isPublic, c.price) == Some(c)
  {
    ParseCategoryName(c.category);
    ParseContactMethodName(c.contactMethod);
    ParseApprovalModeName(c.approvalMode);
  }

  function ParseCapabilityEnd(vs: seq<string>, isPublic: bool, s: string): (r: Option<(Capability, string)>)
    requires |vs| == |StringKeys|
    ensures r.Some? ==> |r.value.1| < |s|
  {
    match ParsePrice(s)
    case None => None
    case Some((price, s1)) =>
      match Expect("}", s1)
      case None => None
      case Some(s2) =>
        match FromMembers(vs, isPublic, price)
        case None => None
        case Some(c) => Some((c, s2))
  }

  function ParseCapabilityTail(vs: seq<string>, s: string): (r: Option<(Capability, string)>)
    requires |vs| == |StringKeys|
    ensures r.Some? ==> |r.value.1| < |s|
  {
    match Expect(",\"isPublic\":", s)
    case None => None
    case Some(s1) =>
      match ParseBool(s1)
      case None => None
      case Some((isPublic, s2)) => ParseCapabilityEnd(vs, isPublic, s2)
  }

  function ParseCapability(s: string): (r: Option<(Capability, string)>)
    ensures r.Some? ==> |r.value.1| < |s|
  {
    match Expect("{", s)
    case None => None
    case Some(s1) =>
      match ParseMembers(StringKeys, s1, true)
      case None => None
      case Some((vs, s2)) => ParseCapabilityTail(vs, s2)
  }

  lemma ParseCapabilityRoundTrip(c: Capability, rest: string)
    ensures ParseCapability(EncodeCapability(c, rest)) == Some((c, rest))
  {
    var vs := StringValues(c);
    var t6 := "}" + rest;
    var t5 := EncodePrice(c.price, t6);
    var t4 := EncodeBool(c.isPublic, t5);
    var t3 := ",\"isPublic\":" + t4;
    var members := EncodeMembers(StringKeys, vs, true, t3);
    ExpectConcat("{", members);
    ParseMembersRoundTrip(StringKeys, vs, true, t3);
    ExpectConcat(",\"isPublic\":", t4);
    ParseBoolRoundTrip(c.isPublic, t5);
    ParsePriceRoundTrip(c.price, t6);
    ExpectConcat("}", rest);
    FromMembersRoundTrip(c);
    assert ParseCapabilityEnd(vs, c.isPublic, t5) == Some((c, rest));
    assert ParseCapabilityTail(vs, t3) == Some((c, rest));
  }

  // ---------------------------------------------------------------------
  // The array

  function EncodeElements(cs: seq<Capability>, first: bool, rest: string): string
  {
    if cs == [] then rest
    else (if first then "" else ",") + EncodeCapability(cs[0], EncodeElements(cs[1..], false, rest))
  }

  /** `JSON.stringify(capabilities)`. */
  function Stringify(cs: seq<Capability>): string
  {
    "[" + EncodeElements(cs, true, "]")
  }

  /** The elements of an array after `[` (or after the previous element), up to and including `]`. */
  function ParseElements(s: string, first: bool): Option<(seq<Capability>, string)>
    decreases |s|, 1
  {
    if |s| > 0 && s[0] == ']' then Some(([], s[1..]))
    else if first then ParseNextElement(s)
    else
      match Expect(",", s)
      case None => None
      case Some(s1) => ParseNextElement(s1)
  }

  function ParseNextElement(s: string): Option<(seq<Capability>, string)>
    decreases |s|, 0
  {
    match ParseCapability(s)
    case None => None
    case Some((c, s1)) =>
      match ParseElements(s1, false)
      case None => None
      case Some((cs, s2)) => Some(([c] + cs, s2))
  }

  /** The white space `JSON.parse` allows around a value. */
  predicate IsJsonSpace(c: char)
  {
    c == ' ' || c == '\t' || c == '\n' || c == '\r'
  }

  /**
   * `JSON.parse(text)` for the texts `Stringify` produces, with white space
   * allowed before and after the array; `None` where `JSON.parse` throws.
   */
  function Parse(text: string): Option<seq<Capability>>
    decreases |text|
  {
    if |text| > 0 && IsJsonSpace(text[0]) then Parse(text[1..])
    else
      match Expect("[", text)
      case None => None
      case Some(s) =>
        match ParseElements(s, true)
        case Some((cs, rest)) =>
          if forall i :: 0 <= i < |rest| ==> IsJsonSpace(rest[i]) then Some(cs) else None
        case None => None
  }

  /** An element followed by the rest of the array parses as that element before the rest's elements. */
  lemma NextElementOf(s: string, c: Capability, t: string, cs: seq<Capability>, rest: string)
    requires ParseCapability(s) == Some((c, t)) && ParseElements(t, false) == Some((cs, rest))
    ensures ParseNextElement(s) == Some(([c] + cs, rest))
  {
  }

  /** An element that opens with `{`, preceded by a comma unless it is the first, is parsed as the next element. */
  lemma ElementsAt(s: string, first: bool)
    requires |s| > 0 && s[0] == '{'
    ensures ParseElements((if first then "" else ",") + s, first) == ParseNextElement(s)
  {
    if first {
      assert "" + s == s;
    } else {
      ExpectConcat(",", s);
    }
  }

  /** One element, then the elements of the rest of the array. */
  lemma ElementsStep(s: string, b: string, first: bool, c: Capability, t: string, cs: seq<Capability>, rest: string)
    requires s == (if first then "" else ",") + b && |b| > 0 && b[0] == '{'
    requires ParseCapability(b) == Some((c, t)) && ParseElements(t, false) == Some((cs, rest))
    ensures ParseElements(s, first) == Some(([c] + cs, rest))
  {
    ElementsAt(b, first);
    NextElementOf(b, c, t, cs, rest);
  }

  /** The step of the round trip for a non-empty list. */
  lemma ElementsConsRoundTrip(cs: seq<Capability>, first: bool, rest: string)
    requires cs != []
    requires ParseElements(EncodeElements(cs[1..], false, "]" + rest), false) == Some((cs[1..], rest))
    ensures ParseElements(EncodeElements(cs, first, "]" + rest), first) == Some((cs, rest))
  {
    var tail := EncodeElements(cs[1..], false, "]" + rest);
    var body := EncodeCapability(cs[0], tail);
    ParseCapabilityRoundTrip(cs[0], tail);
    ElementsStep(EncodeElements(cs, first, "]" + rest), body, first, cs[0], tail, cs[1..], rest);
    assert [cs[0]] + cs[1..] == cs;
  }

  lemma {:induction false} ParseElementsRoundTrip(cs: seq<Capability>, first: bool, rest: string)
    ensures ParseElements(EncodeElements(cs, first, "]" + rest), first) == Some((cs, rest))
    decreases |cs|
  {
    if cs == [] {
      assert ("]" + rest)[1..] == rest;
    } else {
      ParseElementsRoundTrip(cs[1..], false, rest);
      ElementsConsRoundTrip(cs, first, rest);
    }
  }

  /** Parsing the stringified capabilities gives back the same list. */
  lemma ParseStringify(cs: seq<Capability>)
    ensures Parse(Stringify(cs)) == Some(cs)
  {
    ExpectConcat("[", EncodeElements(cs, true, "]"));
    assert "]" == "]" + "";
    ParseElementsRoundTrip(cs, true, "");
  }

  /** The default text `'[]'` parses to the empty list. */
  lemma ParseEmptyArray()
    ensures Parse("[]") == Some([])
  {
    ParseStringify([]);
  }
}
