/**
 * `replaceEmojis` of team.js: decode three HTML entities, then rewrite
 * every `:shortcode:` found in the emoji table into the one code point the
 * table gives for it in hexadecimal.
 */
module Emoji {
  import opened Wrappers
  import opened JsString

  // ---------------------------------------------------------------------
  // parseInt(hex, 16)
  // ---------------------------------------------------------------------

  /** The value of a hexadecimal digit, either case, or -1 for any other character. */
  function HexDigit(c: char): (d: int)
    ensures -1 <= d < 16
    ensures d == -1 <==> !('0' <= c <= '9' || 'a' <= c <= 'f' || 'A' <= c <= 'F')
    ensures '0' <= c <= '9' ==> d == c as int - '0' as int
    ensures 'a' <= c <= 'f' ==> d == c as int - 'a' as int + 10
    ensures 'A' <= c <= 'F' ==> d == c as int - 'A' as int + 10
  {
    if '0' <= c <= '9' then c as int - '0' as int
    else if 'a' <= c <= 'f' then c as int - 'a' as int + 10
    else if 'A' <= c <= 'F' then c as int - 'A' as int + 10
    else -1
  }

  predicate IsHexDigit(c: char)
  {
    HexDigit(c) >= 0
  }

  predicate AllHexDigits(s: string)
  {
    forall j :: 0 <= j < |s| ==> IsHexDigit(s[j])
  }

  /** The length of the run of hexadecimal digits that `s` starts with. */
  function HexRun(s: string): (k: nat)
    ensures k <= |s|
  {
    if s == [] || !IsHexDigit(s[0]) then 0 else 1 + HexRun(s[1..])
  }

  /**
   * The number a string of hexadecimal digits denotes, most significant
   * first (a character that is not a digit, which ParseHex never passes, counts as 0).
   */
  function HexValue(s: string): nat
  {
    if s == [] then 0
    else 16 * HexValue(s[..|s| - 1]) + (if IsHexDigit(s[|s| - 1]) then HexDigit(s[|s| - 1]) else 0)
  }

  /** The digits `parseInt(s, 16)` reads: `s` without a leading `0x` or `0X`. */
  function HexBody(s: string): string
  {
    if |s| >= 2 && s[0] == '0' && (s[1] == 'x' || s[1] == 'X') then s[2..] else s
  }

  /**
   * `parseInt(s, 16)`: the value of the leading run of hexadecimal digits
   * after an optional `0x`; `None` stands for `NaN`, when there is no such digit.
   */
  function ParseHex(s: string): Option<nat>
  {
    var body := HexBody(s);
    var k := HexRun(body);
    if k == 0 then None else Some(HexValue(body[..k]))
  }

  // ---------------------------------------------------------------------
  // A reference encoder, to state what ParseHex reads back
  // ---------------------------------------------------------------------

  function HexChar(d: nat): (c: char)
    requires d < 16
    ensures HexDigit(c) == d
  {
    if d < 10 then ('0' as int + d) as char else ('a' as int + d - 10) as char
  }

  /** `n` written in lower-case hexadecimal, without leading zeros. */
  function ToHex(n: nat): (s: string)
    ensures s != [] && AllHexDigits(s)
    ensures |s| > 1 ==> s[0] != '0'
  {
    if n < 16 then [HexChar(n)] else ToHex(n / 16) + [HexChar(n % 16)]
  }

  lemma {:induction false} HexValueToHex(n: nat)
    ensures HexValue(ToHex(n)) == n
  {
    if n >= 16 {
      var s := ToHex(n);
      assert s[..|s| - 1] == ToHex(n / 16);
      HexValueToHex(n / 16);
    }
  }

  /** `parseInt(h, 16)` reads back every number written in hexadecimal. */
  lemma ParseHexToHex(n: nat)
    ensures ParseHex(ToHex(n)) == Some(n)
  {
    var s := ToHex(n);
    assert HexBody(s) == s;
    HexRunStops(s, "");
    assert s + "" == s && s[..|s|] == s;
    HexValueToHex(n);
  }

  /** With the `0x` prefix `parseInt(h, 16)` accepts, the number is read back all the same. */
  lemma ParseHexPrefixed(n: nat)
    ensures ParseHex("0x" + ToHex(n)) == Some(n)
  {
    var s := ToHex(n);
    assert HexBody("0x" + s) == s;
    HexRunStops(s, "");
    assert s + "" == s && s[..|s|] == s;
    HexValueToHex(n);
  }

  /** `parseInt` stops at the first character that is not a digit: `1f1e8-1f1f3` reads as `1f1e8`. */
  lemma {:induction false} HexRunStops(d: string, rest: string)
    requires AllHexDigits(d) && (rest == [] || !IsHexDigit(rest[0]))
    ensures HexRun(d + rest) == |d|
    decreases |d|
  {
    if d != [] {
      assert (d + rest)[1..] == d[1..] + rest;
      HexRunStops(d[1..], rest);
    } else {
      assert d + rest == rest;
    }
  }

  lemma HexValueSnoc(s: string, c: char)
    requires IsHexDigit(c)
    ensures HexValue(s + [c]) == 16 * HexValue(s) + HexDigit(c)
  {
    assert (s + [c])[..|s|] == s;
  }

  lemma HexValueSmile()
    ensures HexValue("1f604") == 0x1F604 && HexValue("1F604") == 0x1F604
  {
    HexValueSmileIn('f');
    assert ['1', 'f', '6', '0', '4'] == "1f604";
    HexValueSmileIn('F');
    assert ['1', 'F', '6', '0', '4'] == "1F604";
  }

  /** `1f604` with its `f` in either case, one digit at a time. */
  lemma HexValueSmileIn(f: char)
    requires f == 'f' || f == 'F'
    ensures HexValue(['1', f, '6', '0', '4']) == 0x1F604
  {
    HexValueSnoc("", '1');
    assert "" + ['1'] == ['1'];
    HexValueSnoc(['1'], f);
    assert ['1'] + [f] == ['1', f];
    HexValueSnoc(['1', f], '6');
    assert ['1', f] + ['6'] == ['1', f, '6'];
    HexValueSnoc(['1', f, '6'], '0');
    assert ['1', f, '6'] + ['0'] == ['1', f, '6', '0'];
    HexValueSnoc(['1', f, '6', '0'], '4');
    assert ['1', f, '6', '0'] + ['4'] == ['1', f, '6', '0', '4'];
  }

  /** A hexadecimal digit in upper case; any other character is kept. */
  function UpperHexChar(c: char): (u: char)
    ensures HexDigit(u) == HexDigit(c)
    ensures !('a' <= u <= 'f')
    ensures 'a' <= c <= 'f' || u == c
  {
    if 'a' <= c <= 'f' then (c as int - 32) as char else c
  }

  /** `s` with its hexadecimal digits written in upper case. */
  function UpperHex(s: string): (u: string)
    ensures |u| == |s|
    ensures forall j :: 0 <= j < |s| ==> u[j] == UpperHexChar(s[j])
  {
    if s == [] then [] else UpperHex(s[..|s| - 1]) + [UpperHexChar(s[|s| - 1])]
  }

  /** The case of the digits does not change the value. */
  lemma {:induction false} HexValueUpperHex(s: string)
    ensures HexValue(UpperHex(s)) == HexValue(s)
    decreases |s|
  {
    if s != [] {
      var u := UpperHex(s);
      assert u[..|u| - 1] == UpperHex(s[..|s| - 1]);
      HexValueUpperHex(s[..|s| - 1]);
    }
  }

  /** `parseInt(h, 16)` also reads back every number written in upper-case hexadecimal. */
  lemma ParseHexUpperToHex(n: nat)
    ensures ParseHex(UpperHex(ToHex(n))) == Some(n)
  {
    var s := ToHex(n);
    var u := UpperHex(s);
    assert AllHexDigits(u) by {
      forall j | 0 <= j < |u| ensures IsHexDigit(u[j]) {
        assert IsHexDigit(s[j]);
      }
    }
    assert |u| > 1 ==> u[0] != '0' by {
      if |u| > 1 {
        assert u[0] == UpperHexChar(s[0]);
      }
    }
    ParseHexAllDigits(u);
    HexValueUpperHex(s);
    HexValueToHex(n);
  }

  lemma ParseHexAllDigits(s: string)
    requires s != [] && AllHexDigits(s) && HexBody(s) == s
    ensures ParseHex(s) == Some(HexValue(s))
  {
    HexRunStops(s, "");
    assert s + "" == s && s[..|s|] == s;
  }

  /** The entry for `smile`, in either case, reads as U+1F604. */
  lemma ParseHexSmile()
    ensures ParseHex("1f604") == Some(0x1F604)
    ensures ParseHex("1F604") == Some(0x1F604)
  {
    HexValueSmile();
    ParseHexAllDigits("1f604");
    ParseHexAllDigits("1F604");
  }

  // ---------------------------------------------------------------------
  // The emoji table
  // ---------------------------------------------------------------------

  /** Shortcode (without colons) to the hexadecimal code point it stands for. */
  type EmojiTable = map<string, string>

  /** The table gives `key` a truthy entry (`if (emoji)`: an empty string is falsy). */
  predicate Known(table: EmojiTable, key: string)
  {
    key in table && table[key] != ""
  }

  /** A code point that is a Unicode scalar value, which is what a `char` holds. */
  predicate IsScalar(v: int)
  {
    0 <= v < 0xD800 || 0xE000 <= v < 0x11_0000
  }

  /** An entry `String.fromCodePoint(parseInt(entry, 16))` accepts, or an empty (falsy) one. */
  predicate ValidEntry(hex: string)
  {
    hex == "" || (ParseHex(hex).Some? && IsScalar(ParseHex(hex).value))
  }

  predicate ValidTable(table: EmojiTable)
  {
    forall key :: key in table ==> ValidEntry(table[key])
  }

  /** `String.fromCodePoint(parseInt(hex, 16))`. */
  function CodePoint(hex: string): (c: char)
    requires hex != "" && ValidEntry(hex)
    ensures Some(c as int) == ParseHex(hex)
  {
    ParseHex(hex).value as char
  }

  // ---------------------------------------------------------------------
  // Entity decoding
  // ---------------------------------------------------------------------

  /** `&lt;`, then `&gt;`, then `&amp;`, each replaced globally in its own pass. */
  function DecodeEntities(s: string): (r: string)
    ensures |r| <= |s|
  {
    ReplaceAll(ReplaceAll(ReplaceAll(s, "&lt;", "<"), "&gt;", ">"), "&amp;", "&")
  }

  lemma NoAmpersandNoMatch(s: string, pat: string)
    requires pat != "" && pat[0] == '&' && '&' !in s
    ensures !Occurs(s, pat)
  {
    forall j | 0 <= j <= |s| - |pat| ensures !MatchAt(s, pat, j) {
      assert s[j] in s;
    }
  }

  /** Without a `&` there is nothing to decode. */
  lemma DecodeNoAmpersand(s: string)
    requires '&' !in s
    ensures DecodeEntities(s) == s
  {
    NoAmpersandNoMatch(s, "&lt;");
    ReplaceAllAbsent(s, "&lt;", "<");
    NoAmpersandNoMatch(s, "&gt;");
    ReplaceAllAbsent(s, "&gt;", ">");
    NoAmpersandNoMatch(s, "&amp;");
    ReplaceAllAbsent(s, "&amp;", "&");
  }

  /**
   * The passes run in this order, so `&amp;lt;` decodes once, to `&lt;`,
   * and not on to `<`.
   */
  lemma DecodeOrder()
    ensures DecodeEntities("&amp;lt;") == "&lt;"
  {
    AmpLtHasNoLtGt();
    ReplaceAllAbsent("&amp;lt;", "&lt;", "<");
    ReplaceAllAbsent("&amp;lt;", "&gt;", ">");
    AmpLtLastPass();
  }

  lemma AmpLtHasNoLtGt()
    ensures !Occurs("&amp;lt;", "&lt;") && !Occurs("&amp;lt;", "&gt;")
  {
    var s := "&amp;lt;";
    forall j | 0 <= j <= |s| - 4 ensures !MatchAt(s, "&lt;", j) && !MatchAt(s, "&gt;", j) {
      assert s[j..j + 4][0] == s[j] && s[j..j + 4][1] == s[j + 1];
    }
  }

  lemma AmpLtLastPass()
    ensures ReplaceAll("&amp;lt;", "&amp;", "&") == "&lt;"
  {
    var s := "&amp;lt;";
    assert s[..5] == "&amp;" && s[5..] == "lt;";
    NoAmpersandNoMatch("lt;", "&amp;");
    ReplaceAllAbsent("lt;", "&amp;", "&");
  }

  /** Each entity alone decodes to its character. */
  lemma DecodeEachEntity()
    ensures DecodeEntities("&lt;") == "<"
    ensures DecodeEntities("&gt;") == ">"
    ensures DecodeEntities("&amp;") == "&"
  {
    assert DecodeEntities("") == "";
    DecodeLtAt("", "");
    assert "" + "&lt;" + "" == "&lt;" && "" + "<" + "" == "<";
    DecodeGtAt("", "");
    assert "" + "&gt;" + "" == "&gt;" && "" + ">" + "" == ">";
    DecodeAmpAt("", "");
    assert "" + "&amp;" + "" == "&amp;" && "" + "&" + "" == "&";
  }

  /** Text before the first `&` is copied, and the decoding goes on after it. */
  lemma DecodeSkip(a: string, b: string)
    requires '&' !in a
    ensures DecodeEntities(a + b) == a + DecodeEntities(b)
  {
    var b1 := ReplaceAll(b, "&lt;", "<");
    var b2 := ReplaceAll(b1, "&gt;", ">");
    ReplaceAllSkip(a, b, "&lt;", "<");
    ReplaceAllSkip(a, b1, "&gt;", ">");
    ReplaceAllSkip(a, b2, "&amp;", "&");
  }

  /** The first `&lt;` becomes `<`, and every later entity is decoded as well (the `/g` flag). */
  lemma DecodeLtAt(a: string, b: string)
    requires '&' !in a
    ensures DecodeEntities(a + "&lt;" + b) == a + "<" + DecodeEntities(b)
  {
    assert a + "&lt;" + b == a + ("&lt;" + b);
    DecodeSkip(a, "&lt;" + b);
    DecodeLtFront(b);
  }

  /** The first `&gt;` becomes `>`, and every later entity is decoded as well. */
  lemma DecodeGtAt(a: string, b: string)
    requires '&' !in a
    ensures DecodeEntities(a + "&gt;" + b) == a + ">" + DecodeEntities(b)
  {
    assert a + "&gt;" + b == a + ("&gt;" + b);
    DecodeSkip(a, "&gt;" + b);
    DecodeGtFront(b);
  }

  /** The first `&amp;` becomes `&`, and every later entity is decoded as well. */
  lemma DecodeAmpAt(a: string, b: string)
    requires '&' !in a
    ensures DecodeEntities(a + "&amp;" + b) == a + "&" + DecodeEntities(b)
  {
    assert a + "&amp;" + b == a + ("&amp;" + b);
    DecodeSkip(a, "&amp;" + b);
    DecodeAmpFront(b);
  }

  /**
   * A character that does not start an entity, a stray `&` included, is
   * copied, and decoding goes on after it: no pass can create an entity
   * that a later pass would decode.
   */
  lemma DecodeNoEntityHere(c: char, b: string)
    requires !MatchAt([c] + b, "&lt;", 0) && !MatchAt([c] + b, "&gt;", 0) && !MatchAt([c] + b, "&amp;", 0)
    ensures DecodeEntities([c] + b) == [c] + DecodeEntities(b)
  {
    var b1 := ReplaceAll(b, "&lt;", "<");
    var b2 := ReplaceAll(b1, "&gt;", ">");
    ReplaceAllStep(c, b, "&lt;", "<");
    MatchAtCons(c, b, "&gt;");
    MatchAtCons(c, b1, "&gt;");
    assert "&gt;"[1..] == "gt;";
    ReplaceAllKeepsPrefix(b, "&lt;", "<", "gt;");
    ReplaceAllStep(c, b1, "&gt;", ">");
    MatchAtCons(c, b, "&amp;");
    MatchAtCons(c, b2, "&amp;");
    assert "&amp;"[1..] == "amp;";
    ReplaceAllKeepsPrefix(b1, "&gt;", ">", "amp;");
    ReplaceAllKeepsPrefix(b, "&lt;", "<", "amp;");
    ReplaceAllStep(c, b2, "&amp;", "&");
  }

  lemma DecodeLtFront(b: string)
    ensures DecodeEntities("&lt;" + b) == "<" + DecodeEntities(b)
  {
    var b1 := ReplaceAll(b, "&lt;", "<");
    var b2 := ReplaceAll(b1, "&gt;", ">");
    var t := "&lt;" + b;
    assert t[..4] == "&lt;" && t[4..] == b;
    ReplaceAllSkip("<", b1, "&gt;", ">");
    ReplaceAllSkip("<", b2, "&amp;", "&");
  }

  lemma DecodeGtFront(b: string)
    ensures DecodeEntities("&gt;" + b) == ">" + DecodeEntities(b)
  {
    var b1 := ReplaceAll(b, "&lt;", "<");
    var b2 := ReplaceAll(b1, "&gt;", ">");
    assert "&gt;"[..4][1] == 'g' && "&gt;"[1..] == "gt;";
    ReplaceAllMismatch("&gt;", b, "&lt;", "<");
    var t := "&gt;" + b1;
    assert t[..4] == "&gt;" && t[4..] == b1;
    ReplaceAllSkip(">", b2, "&amp;", "&");
  }

  lemma DecodeAmpFront(b: string)
    ensures DecodeEntities("&amp;" + b) == "&" + DecodeEntities(b)
  {
    var b1 := ReplaceAll(b, "&lt;", "<");
    var b2 := ReplaceAll(b1, "&gt;", ">");
    assert "&amp;"[..4] == "&amp" && "&amp;"[1..] == "amp;";
    ReplaceAllMismatch("&amp;", b, "&lt;", "<");
    ReplaceAllMismatch("&amp;", b1, "&gt;", ">");
    var t := "&amp;" + b2;
    assert t[..5] == "&amp;" && t[5..] == b2;
  }

  // ---------------------------------------------------------------------
  // The shortcode scan
  // ---------------------------------------------------------------------

  /** The table with every truthy entry already turned into its code point. */
  type Shortcodes = map<string, char>

  function CodePoints(table: EmojiTable): (codes: Shortcodes)
    requires ValidTable(table)
    ensures forall key :: key in codes <==> Known(table, key)
    ensures forall key :: key in codes ==> Known(table, key) && codes[key] == CodePoint(table[key])
  {
    map key | key in table && table[key] != "" :: CodePoint(table[key])
  }

  /**
   * The colon scan of replaceEmojis on already-decoded text: the first `:`
   * and the next `:` after it delimit a candidate; a known candidate becomes
   * its code point and loses both colons, an unknown one is copied with both
   * colons; either way the scan resumes after the second colon.
   */
  function Expand(codes: Shortcodes, s: string): string
    decreases |s|
  {
    match ColonPair(s)
    case None => s
    case Some((i, n)) => Piece(codes, s[..i], s[i + 1..n]) + Expand(codes, s[n + 1..])
  }

  /** The positions of the first `:` and of the next `:` after it, if both exist. */
  function ColonPair(s: string): (p: Option<(nat, nat)>)
    ensures p.Some? ==> p.value.0 < p.value.1 < |s|
  {
    var i := IndexOf(s, ':');
    if i == -1 then None
    else
      var n := IndexOfFrom(s, ':', i + 1);
      if n == -1 then None else Some((i, n))
  }

  /**
   * What the scan appends for the text `before` a colon pair enclosing
   * `key`: the code point in place of a known shortcode, else everything
   * through the second colon.
   */
  function Piece(codes: Shortcodes, before: string, key: string): string
  {
    if key in codes then before + [codes[key]] else before + [':'] + key + [':']
  }

  /** What replaceEmojis returns for `s`. */
  function EmojiText(table: EmojiTable, s: string): string
    requires ValidTable(table)
  {
    Expand(CodePoints(table), DecodeEntities(s))
  }

  /** replaceEmojis (team.js): the decoding passes, then the scan loop. */
  method ReplaceEmojis(table: EmojiTable, s: string) returns (text: string)
    requires ValidTable(table)
    ensures text == EmojiText(table, s)
  {
    ghost var codes := CodePoints(table);
    var str := ReplaceAll(s, "&lt;", "<");
    str := ReplaceAll(str, "&gt;", ">");
    str := ReplaceAll(str, "&amp;", "&");
    assert str == DecodeEntities(s);
    text := "";
    while true
      invariant text + Expand(codes, str) == EmojiText(table, s)
      decreases |str|
    {
      var i := IndexOf(str, ':');
      if i == -1 { break; }
      var n := IndexOfFrom(str, ':', i + 1);
      if n == -1 { break; }
      var key := Substring(str, i + 1, n);
      ExpandStep(codes, str, i, n);
      ghost var done, piece := text, Piece(codes, str[..i], key);
      ShortcodeAt(table, key);
      if Known(table, key) {
        text := text + Substring(str, 0, i);
        text := text + [CodePoint(table[key])];
        assert text == done + piece;
      } else {
        text := text + Substring(str, 0, n + 1);
        ColonPairSlice(str, i, n);
        assert text == done + piece;
      }
      str := str[n + 1..];
      ConcatAssoc(done, piece, Expand(codes, str));
    }
    text := text + str;
  }

  /** What the decoded table holds for one key. */
  lemma ShortcodeAt(table: EmojiTable, key: string)
    requires ValidTable(table)
    ensures key in CodePoints(table) <==> Known(table, key)
    ensures Known(table, key) ==> ValidEntry(table[key]) && CodePoints(table)[key] == CodePoint(table[key])
  {
  }

  lemma ConcatAssoc(a: string, b: string, c: string)
    ensures a + b + c == a + (b + c)
  {
  }

  /** One round of the scan, once both colons are found. */
  lemma {:induction false} ExpandStep(codes: Shortcodes, s: string, i: int, n: int)
    requires i == IndexOf(s, ':') && i != -1
    requires n == IndexOfFrom(s, ':', i + 1) && n != -1
    ensures Expand(codes, s) == Piece(codes, s[..i], s[i + 1..n]) + Expand(codes, s[n + 1..])
  {
    var before, key, rest := s[..i], s[i + 1..n], s[n + 1..];
    assert ColonPair(s) == Some((i, n));
    var r := Expand(codes, s);
    assert r == Piece(codes, before, key) + Expand(codes, rest);
    if key in codes {
      assert r == before + [codes[key]] + Expand(codes, rest);
    } else {
      assert r == before + [':'] + key + [':'] + Expand(codes, rest);
    }
  }

  /** The text the scan copies through the second colon is the text before, the pair and its key. */
  lemma ColonPairSlice(s: string, i: nat, n: nat)
    requires i < n < |s| && s[i] == ':' && s[n] == ':'
    ensures s[..n + 1] == s[..i] + [':'] + s[i + 1..n] + [':']
  {
  }

  // ---------------------------------------------------------------------
  // Properties of the scan
  // ---------------------------------------------------------------------

  /** Text without a colon comes back unchanged. */
  lemma ExpandNoColon(codes: Shortcodes, s: string)
    requires ':' !in s
    ensures Expand(codes, s) == s
  {
  }

  /** A lone colon, a trailing one included, is copied as it is. */
  lemma ExpandLoneColon(codes: Shortcodes, p: string, q: string)
    requires ':' !in p && ':' !in q
    ensures Expand(codes, p + [':'] + q) == p + [':'] + q
  {
    var s := p + [':'] + q;
    assert s[..|p|] == p;
    IndexOfAt(s, ':', |p|);
    assert forall j :: |p| + 1 <= j < |s| ==> s[j] == q[j - |p| - 1];
  }

  /** The first colon pair whose text is a known shortcode: one code point, no colons. */
  lemma ExpandKnown(codes: Shortcodes, p: string, key: string, rest: string)
    requires ':' !in p && ':' !in key && key in codes
    ensures Expand(codes, p + [':'] + key + [':'] + rest) == p + [codes[key]] + Expand(codes, rest)
  {
    FirstColonPair(codes, p, key, rest);
  }

  /** The first colon pair whose text is unknown: copied with both colons, the scan going on after the second. */
  lemma ExpandUnknown(codes: Shortcodes, p: string, key: string, rest: string)
    requires ':' !in p && ':' !in key && key !in codes
    ensures Expand(codes, p + [':'] + key + [':'] + rest)
         == p + [':'] + key + [':'] + Expand(codes, rest)
  {
    FirstColonPair(codes, p, key, rest);
  }

  /** The scan cuts `p:key:rest` after the second colon, into `p`, `key` and `rest`. */
  lemma FirstColonPair(codes: Shortcodes, p: string, key: string, rest: string)
    requires ':' !in p && ':' !in key
    ensures Expand(codes, p + [':'] + key + [':'] + rest) == Piece(codes, p, key) + Expand(codes, rest)
  {
    var s := p + [':'] + key + [':'] + rest;
    var n := |p| + 1 + |key|;
    ColonPairPositions(p, key, rest);
    ExpandStep(codes, s, |p|, n);
  }

  /** Where the scan finds the two colons of `p:key:rest`, and the three parts it cuts. */
  lemma ColonPairPositions(p: string, key: string, rest: string)
    requires ':' !in p && ':' !in key
    ensures var s := p + [':'] + key + [':'] + rest;
            var n := |p| + 1 + |key|;
            && IndexOf(s, ':') == |p| && IndexOfFrom(s, ':', |p| + 1) == n
            && s[..|p|] == p && s[|p| + 1..n] == key && s[n + 1..] == rest
  {
    var s := p + [':'] + key + [':'] + rest;
    FirstColonAt(s, p, key, rest);
    SecondColonAt(s, p, key, rest);
    ColonPairParts(s, p, key, rest);
  }

  lemma FirstColonAt(s: string, p: string, key: string, rest: string)
    requires ':' !in p && s == p + [':'] + key + [':'] + rest
    ensures IndexOf(s, ':') == |p|
  {
    assert s[..|p|] == p;
    IndexOfAt(s, ':', |p|);
  }

  lemma SecondColonAt(s: string, p: string, key: string, rest: string)
    requires ':' !in key && s == p + [':'] + key + [':'] + rest
    ensures IndexOfFrom(s, ':', |p| + 1) == |p| + 1 + |key|
  {
    var n := |p| + 1 + |key|;
    forall j | |p| + 1 <= j < n ensures s[j] != ':' {
      assert s[j] == key[j - |p| - 1];
    }
    IndexOfFromAt(s, ':', |p| + 1, n);
  }

  lemma ColonPairParts(s: string, p: string, key: string, rest: string)
    requires s == p + [':'] + key + [':'] + rest
    ensures s[..|p|] == p && s[|p| + 1..|p| + 1 + |key|] == key && s[|p| + 2 + |key|..] == rest
  {
    var n := |p| + 1 + |key|;
    assert s[..|p|] == p;
    assert s[|p| + 1..n] == key;
    assert s[n + 1..] == rest;
  }

  /** The scan never lengthens the text: a code point stands in for at least two characters (a known empty shortcode is just `::`). */
  lemma {:induction false} ExpandNoLonger(codes: Shortcodes, s: string)
    ensures |Expand(codes, s)| <= |s|
    decreases |s|
  {
    var i := IndexOf(s, ':');
    var n := if i == -1 then -1 else IndexOfFrom(s, ':', i + 1);
    if n == -1 {
      assert ColonPair(s) == None;
    } else {
      ExpandStep(codes, s, i, n);
      ExpandNoLonger(codes, s[n + 1..]);
      if s[i + 1..n] in codes {
        assert |Piece(codes, s[..i], s[i + 1..n])| == i + 1;
      } else {
        assert |Piece(codes, s[..i], s[i + 1..n])| == n + 1;
      }
    }
  }

  /** With no known shortcode, the scan changes nothing. */
  lemma {:induction false} ExpandNothingKnown(s: string)
    ensures Expand(map[], s) == s
    decreases |s|
  {
    var i := IndexOf(s, ':');
    if i != -1 {
      var n := IndexOfFrom(s, ':', i + 1);
      if n != -1 {
        ExpandNothingKnown(s[n + 1..]);
        assert s[..i] + [':'] + s[i + 1..n] + [':'] + s[n + 1..] == s;
      }
    }
  }

  /**
   * In `a:b:smile:` the pair `:b:` is tried first; `b` being unknown, the
   * scan resumes after its second colon, so the remaining `smile:` has only
   * one colon left and `:smile:` is not replaced even when it is known.
   */
  lemma ResumeAfterSecondColon(codes: Shortcodes)
    requires "smile" in codes && "b" !in codes
    ensures Expand(codes, "a:b:smile:") == "a:b:smile:"
  {
    assert "a:b:smile:" == "a" + [':'] + "b" + [':'] + "smile:";
    ExpandUnknown(codes, "a", "b", "smile:");
    assert "smile:" == "smile" + [':'] + "";
    ExpandLoneColon(codes, "smile", "");
  }

  /** The scan on `hi :smile: there` ... */
  lemma SmileScan(codes: Shortcodes)
    requires "smile" in codes && codes["smile"] == '\U{1F604}'
    ensures Expand(codes, "hi :smile: there") == "hi \U{1F604} there"
  {
    calc {
      Expand(codes, "hi :smile: there");
    == { assert "hi :smile: there" == "hi " + [':'] + "smile" + [':'] + " there"; }
      Expand(codes, "hi " + [':'] + "smile" + [':'] + " there");
    == { assert ':' !in "hi " && ':' !in "smile"; ExpandKnown(codes, "hi ", "smile", " there"); }
      "hi " + [codes["smile"]] + Expand(codes, " there");
    == { ExpandNoColon(codes, " there"); }
      "hi " + ['\U{1F604}'] + " there";
    == { assert "hi \U{1F604} there" == "hi " + ['\U{1F604}'] + " there"; }
      "hi \U{1F604} there";
    }
  }

  /** ... and on `hi :unknown: there`. */
  lemma UnknownScan(codes: Shortcodes)
    requires "unknown" !in codes
    ensures Expand(codes, "hi :unknown: there") == "hi :unknown: there"
  {
    assert "hi :unknown: there" == "hi " + [':'] + "unknown" + [':'] + " there";
    ExpandUnknown(codes, "hi ", "unknown", " there");
    ExpandNoColon(codes, " there");
  }

  lemma SmileCodePoint(table: EmojiTable)
    requires ValidTable(table) && "smile" in table && table["smile"] == "1f604"
    ensures "smile" in CodePoints(table) && CodePoints(table)["smile"] == '\U{1F604}'
  {
    ParseHexSmile();
  }

  /** replaceEmojis on `hi :smile: there`, with `smile` at `1f604` in the table, gives `hi 😄 there`. */
  lemma SmileExample(table: EmojiTable)
    requires ValidTable(table) && "smile" in table && table["smile"] == "1f604"
    ensures EmojiText(table, "hi :smile: there") == "hi \U{1F604} there"
  {
    SmileCodePoint(table);
    SmileScan(CodePoints(table));
    SmileNoAmpersand();
    EmojiTextNoAmpersand(table, "hi :smile: there");
  }

  lemma SmileNoAmpersand()
    ensures '&' !in "hi :smile: there"
  {
  }

  lemma UnknownNoAmpersand()
    ensures '&' !in "hi :unknown: there"
  {
  }

  /** Without a `&`, replaceEmojis is the scan alone. */
  lemma EmojiTextNoAmpersand(table: EmojiTable, s: string)
    requires ValidTable(table) && '&' !in s
    ensures EmojiText(table, s) == Expand(CodePoints(table), s)
  {
    DecodeNoAmpersand(s);
  }

  /** An unknown shortcode passes through with its colons. */
  lemma UnknownExample(table: EmojiTable)
    requires ValidTable(table) && !Known(table, "unknown")
    ensures EmojiText(table, "hi :unknown: there") == "hi :unknown: there"
  {
    UnknownScan(CodePoints(table));
    UnknownNoAmpersand();
    EmojiTextNoAmpersand(table, "hi :unknown: there");
  }
}
