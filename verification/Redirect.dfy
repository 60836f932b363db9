/** The HTTP-Redirect query: printed in service_provider.go, verified in identity_provider_signature.go
    and decoded in identity_provider.go. Strings are byte strings. */
module Redirect {
  import opened Wrappers

  predicate Bytes(s: string) {
    forall c :: c in s ==> c as int < 256
  }

  // ---------------------------------------------------------------- percent-encoding, from net/url

  predicate Unreserved(c: char) {
    'a' <= c <= 'z' || 'A' <= c <= 'Z' || '0' <= c <= '9' || c in "-_.~"
  }

  const HEX := "0123456789ABCDEF"

  function QueryEscape(s: string): string {
    if s == "" then ""
    else EscapeChar(s[0]) + QueryEscape(s[1..])
  }

  function EscapeChar(c: char): string {
    if c == ' ' then "+"
    else if Unreserved(c) then [c]
    else ['%', HEX[(c as int / 16) % 16], HEX[c as int % 16]]
  }

  function Unhex(c: char): Option<int> {
    if '0' <= c <= '9' then Some(c as int - '0' as int)
    else if 'a' <= c <= 'f' then Some(c as int - 'a' as int + 10)
    else if 'A' <= c <= 'F' then Some(c as int - 'A' as int + 10)
    else None
  }

  function QueryUnescape(s: string): Option<string>
    decreases |s|
  {
    if s == "" then Some("")
    else if s[0] == '%' then
      if |s| < 3 || Unhex(s[1]).None? || Unhex(s[2]).None? then None
      else
        var rest := QueryUnescape(s[3..]);
        if rest.None? then None else Some([(Unhex(s[1]).value * 16 + Unhex(s[2]).value) as char] + rest.value)
    else
      var rest := QueryUnescape(s[1..]);
      if rest.None? then None else Some([if s[0] == '+' then ' ' else s[0]] + rest.value)
  }

  lemma UnhexHex(n: int)
    requires 0 <= n < 16
    ensures Unhex(HEX[n]) == Some(n) && HEX[n] != '%'
  {
  }

  lemma UnescapePercent(h: char, l: char, rest: string)
    requires Unhex(h).Some? && Unhex(l).Some? && QueryUnescape(rest).Some?
    ensures QueryUnescape(['%', h, l] + rest)
         == Some([(Unhex(h).value * 16 + Unhex(l).value) as char] + QueryUnescape(rest).value)
  {
    hide Unhex;
    var s := ['%', h, l] + rest;
    assert s[0] == '%' && s[1] == h && s[2] == l && s[3..] == rest;
  }

  lemma UnescapePlain(c: char, rest: string)
    requires c != '%' && QueryUnescape(rest).Some?
    ensures QueryUnescape([c] + rest) == Some([if c == '+' then ' ' else c] + QueryUnescape(rest).value)
  {
    hide Unhex;
    assert ([c] + rest)[0] == c && ([c] + rest)[1..] == rest;
  }

  lemma UnescapeOne(c: char, rest: string)
    requires c as int < 256 && QueryUnescape(rest).Some?
    ensures QueryUnescape(EscapeChar(c) + rest) == Some([c] + QueryUnescape(rest).value)
  {
    hide QueryUnescape, Unhex;
    if c == ' ' {
      UnescapePlain('+', rest);
    } else if Unreserved(c) {
      UnescapePlain(c, rest);
    } else {
      UnhexHex((c as int / 16) % 16);
      UnhexHex(c as int % 16);
      UnescapePercent(HEX[(c as int / 16) % 16], HEX[c as int % 16], rest);
    }
  }

  lemma EscapeEmpty()
    ensures QueryEscape("") == "" && QueryUnescape("") == Some("")
  {
  }

  /** Decoding what was encoded gives it back. */
  lemma {:induction false} UnescapeEscape(s: string)
    requires Bytes(s)
    ensures QueryUnescape(QueryEscape(s)) == Some(s)
  {
    hide QueryUnescape, EscapeChar;
    if s == "" {
      EscapeEmpty();
    } else {
      assert forall c :: c in s[1..] ==> c in s;
      UnescapeEscape(s[1..]);
      assert s[0] in s;
      UnescapeOne(s[0], QueryEscape(s[1..]));
      assert s == [s[0]] + s[1..];
    }
  }

  const LOWER := "0123456789abcdef"
  const UPPER := "0123456789ABCDEF"

  /** The character is the hexadecimal digit of n, in either case. */
  predicate IsDigit(c: char, n: nat) {
    n < 16 && (c == LOWER[n] || c == UPPER[n])
  }

  /** Where a byte can be spelled: by itself, unless it is a percent or plus sign; by a plus sign for a space; or by a
      percent sign and two digits. */
  predicate SpellsByte(piece: string, b: char) {
    || (piece == [b] && b != '%' && b != '+')
    || (piece == "+" && b == ' ')
    || (|piece| == 3 && piece[0] == '%' && IsDigit(piece[1], b as int / 16) && IsDigit(piece[2], b as int % 16))
  }

  /** `t` is a spelling of `s`, byte for byte. */
  ghost predicate Spells(t: string, s: string)
    decreases |s|
  {
    if s == "" then t == ""
    else exists k: nat :: 0 < k <= |t| && SpellsByte(t[..k], s[0]) && Spells(t[k..], s[1..])
  }

  lemma UnhexIsDigit(c: char, n: nat)
    ensures Unhex(c) == Some(n) <==> IsDigit(c, n)
  {
  }

  lemma UnhexBelow16(c: char)
    ensures Unhex(c).Some? ==> 0 <= Unhex(c).value < 16
  {
  }

  lemma DigitsOfByte(h: int, l: int, b: char)
    requires 0 <= h < 16 && 0 <= l < 16
    ensures (h * 16 + l) as char == b <==> h == b as int / 16 && l == b as int % 16
  {
  }

  lemma {:induction false} DecodedIsSpelled(t: string)
    requires QueryUnescape(t).Some?
    ensures Spells(t, QueryUnescape(t).value)
    decreases |t|
  {
    hide Unhex, IsDigit, LOWER, UPPER;
    if t != "" {
      var k: nat := if t[0] == '%' then 3 else 1;
      DecodedIsSpelled(t[k..]);
      var s := QueryUnescape(t).value;
      assert s[1..] == QueryUnescape(t[k..]).value;
      if t[0] == '%' {
        UnhexBelow16(t[1]);
        UnhexBelow16(t[2]);
        var h, l := Unhex(t[1]).value, Unhex(t[2]).value;
        UnhexIsDigit(t[1], h);
        UnhexIsDigit(t[2], l);
        DigitsOfByte(h, l, s[0]);
      }
      assert SpellsByte(t[..k], s[0]);
    }
  }

  lemma {:induction false} SpelledIsDecoded(t: string, s: string)
    requires Spells(t, s)
    ensures QueryUnescape(t) == Some(s)
    decreases |s|
  {
    hide Unhex, QueryUnescape;
    if s == "" {
      EscapeEmpty();
    } else {
      var k: nat :| 0 < k <= |t| && SpellsByte(t[..k], s[0]) && Spells(t[k..], s[1..]);
      SpelledIsDecoded(t[k..], s[1..]);
      var piece := t[..k];
      assert t == piece + t[k..] && s == [s[0]] + s[1..];
      if piece == [s[0]] && s[0] != '%' && s[0] != '+' {
        UnescapePlain(s[0], t[k..]);
      } else if piece == "+" && s[0] == ' ' {
        UnescapePlain('+', t[k..]);
      } else {
        var h, l := s[0] as int / 16, s[0] as int % 16;
        UnhexIsDigit(piece[1], h);
        UnhexIsDigit(piece[2], l);
        DigitsOfByte(h, l, s[0]);
        assert piece == ['%', piece[1], piece[2]];
        UnescapePercent(piece[1], piece[2], t[k..]);
      }
    }
  }

  /** Decoding gives `s` if and only if the text is a spelling of `s`, with digits in either case. */
  lemma DecodesSpellings(t: string, s: string)
    ensures QueryUnescape(t) == Some(s) <==> Spells(t, s)
  {
    hide QueryUnescape, Spells;
    if QueryUnescape(t) == Some(s) { DecodedIsSpelled(t); }
    if Spells(t, s) { SpelledIsDecoded(t, s); }
  }

  const CAPITALS := "ABCDEFGHIJKLMNOPQRSTUVWXYZ"
  const SMALL_LETTERS := "abcdefghijklmnopqrstuvwxyz"
  const DIGITS := "0123456789"

  predicate IsKept(c: char) {
    c in CAPITALS || c in SMALL_LETTERS || c in DIGITS || c in "-_.~"
  }

  /** The one spelling that is printed. */
  ghost predicate Printed(t: string, s: string)
    decreases |s|
  {
    if s == "" then t == ""
    else if IsKept(s[0]) then t != "" && t[0] == s[0] && Printed(t[1..], s[1..])
    else if s[0] == ' ' then t != "" && t[0] == '+' && Printed(t[1..], s[1..])
    else
      && |t| >= 3 && t[0] == '%' && t[1] == UPPER[s[0] as int / 16 % 16] && t[2] == UPPER[s[0] as int % 16]
      && Printed(t[3..], s[1..])
  }

  lemma UnreservedIsKept(c: char)
    ensures Unreserved(c) <==> IsKept(c)
  {
    AreCapitals(c);
    AreSmallLetters(c);
    AreDigits(c);
  }

  lemma AreCapitals(c: char)
    ensures c in CAPITALS <==> 'A' <= c <= 'Z'
  {
    if 'A' <= c <= 'Z' { assert CAPITALS[c as int - 'A' as int] == c; }
  }

  lemma AreSmallLetters(c: char)
    ensures c in SMALL_LETTERS <==> 'a' <= c <= 'z'
  {
    if 'a' <= c <= 'z' { assert SMALL_LETTERS[c as int - 'a' as int] == c; }
  }

  lemma AreDigits(c: char)
    ensures c in DIGITS <==> '0' <= c <= '9'
  {
    if '0' <= c <= '9' { assert DIGITS[c as int - '0' as int] == c; }
  }

  /** Encoding keeps letters, digits and four marks, makes a plus sign of a space, and spells every other byte with two
      upper-case digits. */
  lemma {:induction false} EscapePrints(s: string, t: string)
    ensures QueryEscape(s) == t <==> Printed(t, s)
    decreases |s|
  {
    hide Unreserved, IsKept;
    if s != "" {
      var piece := EscapeChar(s[0]);
      UnreservedIsKept(s[0]);
      UnreservedIsKept(' ');
      assert !Unreserved(' ') by { NotUnreserved(); }
      var k := |piece|;
      if k <= |t| {
        EscapePrints(s[1..], t[k..]);
        assert t == t[..k] + t[k..];
        assert QueryEscape(s)[..k] == piece && QueryEscape(s)[k..] == QueryEscape(s[1..]);
      }
    }
  }

  lemma NotUnreserved()
    ensures !Unreserved(' ')
  {
  }

  predicate Separator(c: char) {
    c == '&' || c == '=' || c == ';'
  }

  lemma EscapedCharIsPlain(d: char, c: char)
    requires Separator(c)
    ensures c !in EscapeChar(d)
  {
    HexIsPlain((d as int / 16) % 16, c);
    HexIsPlain(d as int % 16, c);
  }

  lemma HexIsPlain(n: int, c: char)
    requires Separator(c) && 0 <= n < 16
    ensures HEX[n] != c
  {
  }

  lemma {:induction false} EscapedIsPlain(s: string, c: char)
    requires Separator(c)
    ensures c !in QueryEscape(s)
  {
    hide EscapeChar;
    if s != "" {
      EscapedIsPlain(s[1..], c);
      EscapedCharIsPlain(s[0], c);
    }
  }

  // ---------------------------------------------------------------- splitting

  /** The index of the first `c`, or the length. */
  function Find(s: string, c: char): (i: nat)
    ensures i <= |s| && c !in s[..i] && (i < |s| ==> s[i] == c)
  {
    if s == "" || s[0] == c then 0
    else
      var i := 1 + Find(s[1..], c);
      assert s[..i] == [s[0]] + s[1..][..i - 1];
      i
  }

  /** `strings.Split(s, "&")`. */
  function Split(s: string): (pairs: seq<string>)
    ensures pairs != []
    decreases |s|
  {
    var i := Find(s, '&');
    if i == |s| then [s] else [s[..i]] + Split(s[i + 1..])
  }

  function Join(pairs: seq<string>): string
    requires pairs != []
  {
    if |pairs| == 1 then pairs[0] else pairs[0] + "&" + Join(pairs[1..])
  }

  lemma {:induction false} FindIs(s: string, c: char, i: nat)
    requires i <= |s| && c !in s[..i] && (i < |s| ==> s[i] == c)
    ensures Find(s, c) == i
  {
    if i > 0 {
      assert s[0] == s[..i][0] && s[1..][..i - 1] == s[..i][1..];
      FindIs(s[1..], c, i - 1);
    }
  }

  lemma FindAt(s: string, t: string, c: char)
    requires c !in s
    ensures Find(s + [c] + t, c) == |s| && Find(s, c) == |s|
  {
    var whole := s + [c] + t;
    assert whole[..|s|] == s && s[..|s|] == s;
    FindIs(whole, c, |s|);
    FindIs(s, c, |s|);
  }

  lemma {:induction false} SplitJoin(pairs: seq<string>)
    requires pairs != [] && forall p :: p in pairs ==> '&' !in p
    ensures Split(Join(pairs)) == pairs
    decreases |pairs|
  {
    assert pairs[0] in pairs;
    if |pairs| == 1 {
      FindAt(pairs[0], "", '&');
      assert pairs == [pairs[0]];
    } else {
      FindAt(pairs[0], Join(pairs[1..]), '&');
      var s := Join(pairs);
      assert s == pairs[0] + ['&'] + Join(pairs[1..]);
      assert s[..|pairs[0]|] == pairs[0] && s[|pairs[0]| + 1..] == Join(pairs[1..]);
      SplitJoin(pairs[1..]);
      assert pairs == [pairs[0]] + pairs[1..];
    }
  }

  lemma {:induction false} SplitConcat(s: string, t: string)
    ensures Split(s + "&" + t) == Split(s) + Split(t)
    decreases |s|
  {
    hide Find, Split;
    var i := Find(s, '&');
    var whole := s + ['&'] + t;
    if i == |s| {
      assert s[..i] == s;
      SplitOne(s, t);
    } else {
      var tail := s[i + 1..];
      assert s == s[..i] + ['&'] + tail;
      assert whole == s[..i] + ['&'] + (tail + ['&'] + t);
      SplitOne(s[..i], tail + ['&'] + t);
      SplitOne(s[..i], tail);
      SplitConcat(tail, t);
      assert tail + "&" + t == tail + ['&'] + t;
    }
    assert s + "&" + t == whole;
  }

  lemma SplitOne(s: string, t: string)
    requires '&' !in s
    ensures Split(s) == [s] && Split(s + ['&'] + t) == [s] + Split(t)
  {
    FindAt(s, t, '&');
    var whole := s + ['&'] + t;
    assert whole[..|s|] == s && whole[|s| + 1..] == t;
  }

  // ---------------------------------------------------------------- the pairs

  function RawKey(pair: string): string {
    pair[..Find(pair, '=')]
  }

  function RawValue(pair: string): string {
    if Find(pair, '=') == |pair| then "" else pair[Find(pair, '=') + 1..]
  }

  /** The pair is this key and value as they are written: divided at the first equals sign, or all of it the key. */
  predicate WrittenAs(pair: string, key: string, value: string) {
    '=' !in key && (pair == key + "=" + value || (pair == key && value == ""))
  }

  lemma PairIsWrittenAs(pair: string, key: string, value: string)
    ensures WrittenAs(pair, key, value) <==> RawKey(pair) == key && RawValue(pair) == value
  {
    hide Find;
    var i := Find(pair, '=');
    if WrittenAs(pair, key, value) {
      if pair == key + "=" + value {
        FindAt(key, value, '=');
        assert pair == key + ['='] + value;
      } else {
        FindAt(key, "", '=');
      }
    } else if i < |pair| {
      assert pair == pair[..i] + "=" + pair[i + 1..];
    }
  }

  const RESERVED: set<string> := {"SAMLRequest", "SAMLResponse", "RelayState", "SigAlg", "Signature"}

  /** The pairs of reserved parameters: decoded key and raw value. A key that cannot be decoded gives
      None. */
  function ReservedPairs(pairs: seq<string>): Option<seq<(string, string)>> {
    if pairs == [] then Some([])
    else
      var key := QueryUnescape(RawKey(pairs[0]));
      var rest := ReservedPairs(pairs[1..]);
      if key.None? || rest.None? then None
      else if key.value in RESERVED then Some([(key.value, RawValue(pairs[0]))] + rest.value)
      else rest
  }

  predicate DistinctKeys(kvs: seq<(string, string)>) {
    forall i, j :: 0 <= i < j < |kvs| ==> kvs[i].0 != kvs[j].0
  }

  function MapOf(kvs: seq<(string, string)>): map<string, string> {
    if kvs == [] then map[] else map[kvs[0].0 := kvs[0].1] + MapOf(kvs[1..])
  }

  datatype QueryError = Malformed | Repeated | Missing

  /** `redirectParameters`. It fails if a key cannot be decoded or a reserved parameter is repeated. */
  method RedirectParameters(rawQuery: string) returns (r: Result<map<string, string>, QueryError>)
    ensures r.Ok? <==> ReservedPairs(Split(rawQuery)).Some? && DistinctKeys(ReservedPairs(Split(rawQuery)).value)
    ensures r.Ok? ==> r.value == MapOf(ReservedPairs(Split(rawQuery)).value)
  {
    hide QueryUnescape, RawKey, RawValue, ReservedPairs, Split, MapOf;
    var pairs := Split(rawQuery);
    NoReserved();
    var parameters: map<string, string> := map[];
    for i := 0 to |pairs|
      invariant ReservedPairs(pairs[..i]).Some? && DistinctKeys(ReservedPairs(pairs[..i]).value)
      invariant parameters == MapOf(ReservedPairs(pairs[..i]).value)
    {
      var pair := pairs[i];
      ReservedNext(pairs, i);
      var key := QueryUnescape(RawKey(pair));
      if key.None? {
        return Err(Malformed);
      }
      ghost var before := ReservedPairs(pairs[..i]).value;
      assert before + [] == before;
      MapOfKeys(before, key.value);
      if key.value in RESERVED {
        if key.value in parameters {
          RepeatedStays(pairs, i);
          return Err(Repeated);
        }
        MapOfAppend(before, (key.value, RawValue(pair)));
        parameters := parameters[key.value := RawValue(pair)];
      }
    }
    assert pairs[..|pairs|] == pairs;
    r := Ok(parameters);
  }

  lemma NoReserved()
    ensures ReservedPairs([]) == Some([]) && MapOf([]) == map[]
  {
  }

  lemma {:induction false} ReservedConcat(s: seq<string>, t: seq<string>)
    ensures ReservedPairs(s + t) ==
              if ReservedPairs(s).None? || ReservedPairs(t).None? then None
              else Some(ReservedPairs(s).value + ReservedPairs(t).value)
  {
    hide QueryUnescape, RawKey, RawValue;
    if s == [] {
      assert [] + t == t;
      if ReservedPairs(t).Some? { assert [] + ReservedPairs(t).value == ReservedPairs(t).value; }
    } else {
      assert (s + t)[0] == s[0] && (s + t)[1..] == s[1..] + t;
      ReservedConcat(s[1..], t);
      var kv := (if QueryUnescape(RawKey(s[0])).Some? then QueryUnescape(RawKey(s[0])).value else "", RawValue(s[0]));
      if ReservedPairs(s[1..]).Some? && ReservedPairs(t).Some? {
        assert [kv] + (ReservedPairs(s[1..]).value + ReservedPairs(t).value)
            == ([kv] + ReservedPairs(s[1..]).value) + ReservedPairs(t).value;
      }
    }
  }

  lemma ReservedNext(pairs: seq<string>, i: nat)
    requires i < |pairs|
    ensures var key, before, next := QueryUnescape(RawKey(pairs[i])), ReservedPairs(pairs[..i]), ReservedPairs(pairs[..i + 1]);
            && (key.None? ==> ReservedPairs(pairs).None?)
            && (key.Some? && before.Some? ==>
                  next == Some(before.value + (if key.value in RESERVED then [(key.value, RawValue(pairs[i]))] else [])))
  {
    hide QueryUnescape, RawKey, RawValue, ReservedPairs;
    assert pairs[..i + 1] == pairs[..i] + [pairs[i]] && pairs == pairs[..i + 1] + pairs[i + 1..];
    ReservedConcat(pairs[..i], [pairs[i]]);
    ReservedConcat(pairs[..i + 1], pairs[i + 1..]);
    ReservedOne(pairs[i]);
  }

  lemma ReservedOne(pair: string)
    ensures var key := QueryUnescape(RawKey(pair));
            ReservedPairs([pair]) ==
              if key.None? then None
              else Some(if key.value in RESERVED then [(key.value, RawValue(pair))] else [])
  {
    hide QueryUnescape, RawKey, RawValue;
    assert [pair][1..] == [];
    var kv := (if QueryUnescape(RawKey(pair)).Some? then QueryUnescape(RawKey(pair)).value else "", RawValue(pair));
    assert [kv] + [] == [kv];
  }

  /** A pair counts as the value of a reserved parameter if and only if its key is a spelling of that; the value is kept
      as it is written. */
  lemma PairReserved(pair: string, key: string, value: string)
    ensures ReservedPairs([pair]) == Some([(key, value)])
       <==> && key in {"SAMLRequest", "SAMLResponse", "RelayState", "SigAlg", "Signature"}
            && exists written :: WrittenAs(pair, written, value) && Spells(written, key)
  {
    hide QueryUnescape, RawKey, RawValue, Spells, WrittenAs, ReservedPairs;
    ReservedOne(pair);
    PairIsWrittenAs(pair, RawKey(pair), RawValue(pair));
    DecodesSpellings(RawKey(pair), key);
    if written :| WrittenAs(pair, written, value) && Spells(written, key) {
      PairIsWrittenAs(pair, written, value);
    }
    if ReservedPairs([pair]) == Some([(key, value)]) {
      assert WrittenAs(pair, RawKey(pair), value) && Spells(RawKey(pair), key) by {
        var k := QueryUnescape(RawKey(pair)).value;
        assert [(k, RawValue(pair))] == [(key, value)];
        assert [(k, RawValue(pair))][0] == [(key, value)][0];
      }
    }
  }

  lemma RepeatedStays(pairs: seq<string>, i: nat)
    requires i < |pairs| && ReservedPairs(pairs[..i]).Some?
    requires var key := QueryUnescape(RawKey(pairs[i]));
             && key.Some? && key.value in RESERVED
             && exists j :: 0 <= j < |ReservedPairs(pairs[..i]).value| && ReservedPairs(pairs[..i]).value[j].0 == key.value
    ensures ReservedPairs(pairs).None? || !DistinctKeys(ReservedPairs(pairs).value)
  {
    hide QueryUnescape, RawKey, RawValue, ReservedPairs;
    ReservedNext(pairs, i);
    assert pairs == pairs[..i + 1] + pairs[i + 1..];
    ReservedConcat(pairs[..i + 1], pairs[i + 1..]);
    if ReservedPairs(pairs).Some? {
      var before, all := ReservedPairs(pairs[..i]).value, ReservedPairs(pairs).value;
      var key := QueryUnescape(RawKey(pairs[i])).value;
      var j :| 0 <= j < |before| && before[j].0 == key;
      assert all[j].0 == key && all[|before|].0 == key;
    }
  }

  lemma {:induction false} MapOfKeys(kvs: seq<(string, string)>, key: string)
    ensures key in MapOf(kvs) <==> exists i :: 0 <= i < |kvs| && kvs[i].0 == key
  {
    if kvs != [] {
      MapOfKeys(kvs[1..], key);
      if key in MapOf(kvs[1..]) {
        var i :| 0 <= i < |kvs[1..]| && kvs[1..][i].0 == key;
        assert kvs[i + 1].0 == key;
      }
      if exists i :: 0 <= i < |kvs| && kvs[i].0 == key {
        var i :| 0 <= i < |kvs| && kvs[i].0 == key;
        if i > 0 { assert kvs[1..][i - 1].0 == key; }
      }
    }
  }

  lemma {:induction false} MapOfAppend(kvs: seq<(string, string)>, kv: (string, string))
    ensures MapOf(kvs + [kv]) == MapOf(kvs)[kv.0 := kv.1]
  {
    if kvs == [] {
      assert [] + [kv] == [kv] && [kv][1..] == [];
    } else {
      assert (kvs + [kv])[0] == kvs[0] && (kvs + [kv])[1..] == kvs[1..] + [kv];
      MapOfAppend(kvs[1..], kv);
    }
  }

  lemma {:induction false} MapOfDistinct(kvs: seq<(string, string)>, i: nat)
    requires i < |kvs| && DistinctKeys(kvs)
    ensures kvs[i].0 in MapOf(kvs) && MapOf(kvs)[kvs[i].0] == kvs[i].1
  {
    if i > 0 {
      MapOfDistinct(kvs[1..], i - 1);
    } else {
      MapOfKeys(kvs[1..], kvs[0].0);
    }
  }

  // ---------------------------------------------------------------- printing

  function Parameter(key: string, value: string): string {
    key + "=" + QueryEscape(value)
  }

  /** The string that is signed. */
  function SignedString(parameter: string, message: string, relayState: string, sigAlg: string): string {
    Parameter(parameter, message)
    + (if relayState == "" then "" else "&" + Parameter("RelayState", relayState))
    + "&" + Parameter("SigAlg", sigAlg)
  }

  /** The query of `redirectURLWithContext` with a signing context, for a destination with the query
      `existing`. */
  function ProducedQuery(
      existing: string, parameter: string, message: string, relayState: string, sigAlg: string, signature: string): string {
    (if existing == "" then "" else existing + "&")
    + SignedString(parameter, message, relayState, sigAlg) + "&" + Parameter("Signature", signature)
  }

  /** The same, as pairs of key and raw value. */
  function ProducedPairs(parameter: string, message: string, relayState: string, sigAlg: string, signature: string)
    : seq<(string, string)>
  {
    [(parameter, QueryEscape(message))]
    + (if relayState == "" then [] else [("RelayState", QueryEscape(relayState))])
    + [("SigAlg", QueryEscape(sigAlg)), ("Signature", QueryEscape(signature))]
  }

  predicate MessageParameter(parameter: string) {
    parameter == "SAMLRequest" || parameter == "SAMLResponse"
  }

  predicate IsLetter(c: char) {
    'a' <= c <= 'z' || 'A' <= c <= 'Z'
  }

  lemma {:induction false} UnescapeLetters(s: string)
    requires forall c :: c in s ==> IsLetter(c)
    ensures QueryUnescape(s) == Some(s)
  {
    if s != "" {
      assert s[0] in s && forall c :: c in s[1..] ==> c in s;
      UnescapeLetters(s[1..]);
      UnescapePlain(s[0], s[1..]);
      assert s == [s[0]] + s[1..];
    }
  }

  lemma RequestLetters()
    ensures forall c :: c in "SAMLRequest" ==> IsLetter(c)
  {
  }

  lemma ResponseLetters()
    ensures forall c :: c in "SAMLResponse" ==> IsLetter(c)
  {
  }

  lemma RelayStateLetters()
    ensures forall c :: c in "RelayState" ==> IsLetter(c)
  {
  }

  lemma SigAlgLetters()
    ensures forall c :: c in "SigAlg" ==> IsLetter(c)
  {
  }

  lemma SignatureLetters()
    ensures forall c :: c in "Signature" ==> IsLetter(c)
  {
  }

  lemma ReservedKey(key: string)
    requires key in RESERVED
    ensures forall c :: c in key ==> IsLetter(c)
    ensures QueryUnescape(key) == Some(key) && '&' !in key && '=' !in key
  {
    hide QueryUnescape, IsLetter;
    RequestLetters();
    ResponseLetters();
    RelayStateLetters();
    SigAlgLetters();
    SignatureLetters();
    UnescapeLetters(key);
    assert !IsLetter('&') && !IsLetter('=') by { NotLetters(); }
  }

  lemma NotLetters()
    ensures !IsLetter('&') && !IsLetter('=') && !IsLetter(';')
  {
  }

  /** One printed parameter is one pair. */
  lemma ParameterPair(key: string, value: string)
    requires key in RESERVED
    ensures var pair := Parameter(key, value);
            && '&' !in pair && RawKey(pair) == key && RawValue(pair) == QueryEscape(value)
            && ReservedPairs([pair]) == Some([(key, QueryEscape(value))])
  {
    hide QueryEscape, QueryUnescape;
    ReservedKey(key);
    EscapedIsPlain(value, '&');
    var pair := Parameter(key, value);
    assert pair == key + ['='] + QueryEscape(value);
    FindAt(key, QueryEscape(value), '=');
    ReservedOne(pair);
  }

  lemma SplitParameter(key: string, value: string, rest: string)
    requires key in RESERVED
    ensures Split(Parameter(key, value)) == [Parameter(key, value)]
    ensures Split(Parameter(key, value) + "&" + rest) == [Parameter(key, value)] + Split(rest)
  {
    hide Split, Parameter;
    ParameterPair(key, value);
    SplitOne(Parameter(key, value), rest);
    assert Parameter(key, value) + "&" + rest == Parameter(key, value) + ['&'] + rest;
  }

  /** The last two parameters. */
  lemma LastReserved(sigAlg: string, signature: string)
    ensures var sa, sg := ("SigAlg", QueryEscape(sigAlg)), ("Signature", QueryEscape(signature));
            ReservedPairs(Split(Parameter("SigAlg", sigAlg) + "&" + Parameter("Signature", signature))) == Some([sa, sg])
  {
    hide Split, Parameter, ReservedPairs, QueryEscape;
    var a, g := Parameter("SigAlg", sigAlg), Parameter("Signature", signature);
    ParameterPair("SigAlg", sigAlg);
    ParameterPair("Signature", signature);
    SplitParameter("Signature", signature, "");
    SplitParameter("SigAlg", sigAlg, g);
    ReservedConcat([a], [g]);
    var sa, sg := ("SigAlg", QueryEscape(sigAlg)), ("Signature", QueryEscape(signature));
    assert [sa] + [sg] == [sa, sg];
  }

  /** A parameter in front of others. */
  lemma FirstReserved(key: string, value: string, rest: string)
    requires key in RESERVED && ReservedPairs(Split(rest)).Some?
    ensures ReservedPairs(Split(Parameter(key, value) + "&" + rest))
         == Some([(key, QueryEscape(value))] + ReservedPairs(Split(rest)).value)
  {
    hide Split, Parameter, ReservedPairs, QueryEscape;
    ParameterPair(key, value);
    SplitParameter(key, value, rest);
    ReservedConcat([Parameter(key, value)], Split(rest));
  }

  lemma OwnReserved(parameter: string, message: string, relayState: string, sigAlg: string, signature: string)
    requires MessageParameter(parameter)
    ensures ReservedPairs(Split(ProducedQuery("", parameter, message, relayState, sigAlg, signature)))
         == Some(ProducedPairs(parameter, message, relayState, sigAlg, signature))
  {
    hide Split, Parameter, ReservedPairs, QueryEscape;
    var m, r, a, g := Parameter(parameter, message), Parameter("RelayState", relayState),
                      Parameter("SigAlg", sigAlg), Parameter("Signature", signature);
    var last := a + "&" + g;
    LastReserved(sigAlg, signature);
    var middle := if relayState == "" then last else r + "&" + last;
    if relayState != "" {
      FirstReserved("RelayState", relayState, last);
    }
    FirstReserved(parameter, message, middle);
    assert "" + SignedString(parameter, message, relayState, sigAlg) + "&" + g == m + "&" + middle;
    var sa, sg := ("SigAlg", QueryEscape(sigAlg)), ("Signature", QueryEscape(signature));
    var pm, rs := (parameter, QueryEscape(message)), ("RelayState", QueryEscape(relayState));
    var tail := if relayState == "" then [sa, sg] else [rs] + [sa, sg];
    assert ([pm] + (if relayState == "" then [] else [rs])) + [sa, sg] == [pm] + tail;
  }

  /** The produced query has the produced pairs, whatever the destination had before, as long as that can
      be decoded and has no reserved parameter. */
  lemma ProducedReserved(
      existing: string, parameter: string, message: string, relayState: string, sigAlg: string, signature: string)
    requires MessageParameter(parameter)
    requires existing == "" || ReservedPairs(Split(existing)) == Some([])
    ensures ReservedPairs(Split(ProducedQuery(existing, parameter, message, relayState, sigAlg, signature)))
         == Some(ProducedPairs(parameter, message, relayState, sigAlg, signature))
  {
    hide Split, ReservedPairs, ProducedPairs, SignedString, Parameter;
    OwnReserved(parameter, message, relayState, sigAlg, signature);
    if existing != "" {
      var query := ProducedQuery("", parameter, message, relayState, sigAlg, signature);
      var produced := ProducedPairs(parameter, message, relayState, sigAlg, signature);
      SplitConcat(existing, query);
      ReservedConcat(Split(existing), Split(query));
      assert existing + "&" + query == ProducedQuery(existing, parameter, message, relayState, sigAlg, signature);
      assert [] + produced == produced;
    }
  }

  /** What is signed determines the parameter, the message, the relay state and the algorithm. */
  lemma SignedDetermines(p: string, m: string, r: string, a: string, p': string, m': string, r': string, a': string)
    requires MessageParameter(p) && Bytes(m) && Bytes(r) && Bytes(a)
    requires MessageParameter(p') && Bytes(m') && Bytes(r') && Bytes(a')
    ensures SignedString(p, m, r, a) == SignedString(p', m', r', a') <==> p == p' && m == m' && r == r' && a == a'
  {
    hide Split, ReservedPairs, QueryEscape, QueryUnescape, SignedString, Bytes;
    if SignedString(p, m, r, a) == SignedString(p', m', r', a') {
      OwnReserved(p, m, r, a, "");
      OwnReserved(p', m', r', a', "");
      var kvs, kvs' := ProducedPairs(p, m, r, a, ""), ProducedPairs(p', m', r', a', "");
      assert kvs == kvs';
      assert kvs[0] == (p, QueryEscape(m)) && kvs'[0] == (p', QueryEscape(m'));
      assert kvs[|kvs| - 2] == ("SigAlg", QueryEscape(a)) && kvs'[|kvs| - 2] == ("SigAlg", QueryEscape(a'));
      assert r != "" ==> kvs[1] == ("RelayState", QueryEscape(r));
      assert r' != "" ==> kvs'[1] == ("RelayState", QueryEscape(r'));
      UnescapeEscape(m);
      UnescapeEscape(m');
      UnescapeEscape(a);
      UnescapeEscape(a');
      UnescapeEscape(r);
      UnescapeEscape(r');
    }
  }

  // ---------------------------------------------------------------- verifying

  /** The string that `verifyRedirectSignature` rebuilds, or None if a parameter is missing. */
  function Rebuilt(parameters: map<string, string>, parameter: string): Option<string> {
    if parameter !in parameters || "SigAlg" !in parameters || "Signature" !in parameters then None
    else
      Some(parameter + "=" + parameters[parameter]
           + (if "RelayState" in parameters then "&RelayState=" + parameters["RelayState"] else "")
           + "&SigAlg=" + parameters["SigAlg"])
  }

  /** What a signature check is given: the algorithm, the signed string and the encoded signature. */
  type Checker = (string, string, string) -> bool

  /** The reserved pairs can be read without doubt, none is missing, and the signature checks. */
  predicate Accepts(rawQuery: string, parameter: string, check: Checker) {
    var kvs := ReservedPairs(Split(rawQuery));
    && kvs.Some? && DistinctKeys(kvs.value)
    && var parameters := MapOf(kvs.value);
    && Rebuilt(parameters, parameter).Some?
    && QueryUnescape(parameters["SigAlg"]).Some? && QueryUnescape(parameters["Signature"]).Some?
    && check(QueryUnescape(parameters["SigAlg"]).value, Rebuilt(parameters, parameter).value,
             QueryUnescape(parameters["Signature"]).value)
  }

  /** `verifyRedirectSignature`, with the certificates and the check of the signature as an oracle. */
  method VerifyRedirectSignature(rawQuery: string, parameter: string, check: Checker) returns (ok: bool)
    ensures ok <==> Accepts(rawQuery, parameter, check)
  {
    hide ReservedPairs, Split, MapOf, DistinctKeys, QueryUnescape;
    var r := RedirectParameters(rawQuery);
    if r.Err? {
      return false;
    }
    var parameters := r.value;
    if parameter !in parameters || "SigAlg" !in parameters || "Signature" !in parameters {
      return false;
    }
    var signed := parameter + "=" + parameters[parameter];
    if "RelayState" in parameters {
      signed := signed + "&RelayState=" + parameters["RelayState"];
    }
    signed := signed + "&SigAlg=" + parameters["SigAlg"];
    var algorithm := QueryUnescape(parameters["SigAlg"]);
    var signature := QueryUnescape(parameters["Signature"]);
    if algorithm.None? || signature.None? {
      return false;
    }
    SameConcat(parameters, parameter);
    ok := check(algorithm.value, signed, signature.value);
  }

  lemma SameConcat(parameters: map<string, string>, parameter: string)
    requires Rebuilt(parameters, parameter).Some?
    ensures Rebuilt(parameters, parameter).value ==
              (if "RelayState" in parameters
               then parameter + "=" + parameters[parameter] + "&RelayState=" + parameters["RelayState"]
               else parameter + "=" + parameters[parameter])
              + "&SigAlg=" + parameters["SigAlg"]
  {
    var p, q := parameter + "=" + parameters[parameter], "&SigAlg=" + parameters["SigAlg"];
    if "RelayState" in parameters {
      assert p + ("&RelayState=" + parameters["RelayState"]) == p + "&RelayState=" + parameters["RelayState"];
    } else {
      assert p + "" == p;
    }
  }

  lemma {:induction false} InMultiset(s: seq<(string, string)>, kv: (string, string))
    ensures kv in s <==> kv in multiset(s)
    ensures multiset(s)[kv] >= 2 ==> exists i, j :: 0 <= i < j < |s| && s[i] == kv && s[j] == kv
  {
    if s != [] {
      InMultiset(s[1..], kv);
      assert s == [s[0]] + s[1..];
      if multiset(s)[kv] >= 2 {
        if s[0] == kv {
          assert kv in s[1..];
          var j :| 0 <= j < |s[1..]| && s[1..][j] == kv;
          assert s[0] == kv && s[j + 1] == kv;
        } else {
          var i, j :| 0 <= i < j < |s[1..]| && s[1..][i] == kv && s[1..][j] == kv;
          assert s[i + 1] == kv && s[j + 1] == kv;
        }
      }
    }
  }

  /** Reordering pairs with distinct keys changes neither that nor the map. */
  lemma Reordered(s: seq<(string, string)>, t: seq<(string, string)>)
    requires multiset(s) == multiset(t) && DistinctKeys(s)
    ensures DistinctKeys(t) && MapOf(t) == MapOf(s)
  {
    hide MapOf;
    forall i, j | 0 <= i < j < |t| ensures t[i].0 != t[j].0 {
      InMultiset(t, t[i]);
      InMultiset(t, t[j]);
      InMultiset(s, t[i]);
      InMultiset(s, t[j]);
      if t[i] == t[j] {
        TwiceInMultiset(t, i, j);
      }
      var k :| 0 <= k < |s| && s[k] == t[i];
      var l :| 0 <= l < |s| && s[l] == t[j];
    }
    forall key ensures key in MapOf(t) <==> key in MapOf(s) {
      MapOfKeys(s, key);
      MapOfKeys(t, key);
      KeysCarry(s, t, key);
      KeysCarry(t, s, key);
    }
    forall key | key in MapOf(t) ensures MapOf(t)[key] == MapOf(s)[key] {
      MapOfKeys(t, key);
      var i :| 0 <= i < |t| && t[i].0 == key;
      InMultiset(t, t[i]);
      InMultiset(s, t[i]);
      var k :| 0 <= k < |s| && s[k] == t[i];
      MapOfDistinct(t, i);
      MapOfDistinct(s, k);
    }
  }

  lemma KeysCarry(s: seq<(string, string)>, t: seq<(string, string)>, key: string)
    requires multiset(s) == multiset(t)
    ensures (exists i :: 0 <= i < |s| && s[i].0 == key) ==> (exists i :: 0 <= i < |t| && t[i].0 == key)
  {
    if i :| 0 <= i < |s| && s[i].0 == key {
      InMultiset(s, s[i]);
      InMultiset(t, s[i]);
    }
  }

  lemma TwiceInMultiset(s: seq<(string, string)>, i: nat, j: nat)
    requires i < j < |s| && s[i] == s[j]
    ensures multiset(s)[s[i]] >= 2
  {
    assert s == s[..j] + s[j..] && s[j..] == [s[j]] + s[j + 1..];
    assert s[i] in s[..j];
    assert multiset(s) == multiset(s[..j]) + multiset(s[j..]);
  }

  /** The verifier rebuilds the string that was signed, from the produced query or any other that has its
      reserved pairs in any order, among any other pairs with keys that decode. */
  lemma RebuildsSigned(rawQuery: string, parameter: string, message: string, relayState: string, sigAlg: string, signature: string)
    requires MessageParameter(parameter)
    requires ReservedPairs(Split(rawQuery)).Some?
    requires multiset(ReservedPairs(Split(rawQuery)).value)
          == multiset(ProducedPairs(parameter, message, relayState, sigAlg, signature))
    ensures var kvs := ReservedPairs(Split(rawQuery)).value;
            && DistinctKeys(kvs)
            && Rebuilt(MapOf(kvs), parameter) == Some(SignedString(parameter, message, relayState, sigAlg))
            && MapOf(kvs) == MapOf(ProducedPairs(parameter, message, relayState, sigAlg, signature))
  {
    hide ReservedPairs, Split, QueryEscape, MapOf;
    var produced := ProducedPairs(parameter, message, relayState, sigAlg, signature);
    assert DistinctKeys(produced) by { KeysDiffer(); }
    Reordered(produced, ReservedPairs(Split(rawQuery)).value);
    ProducedMap(parameter, message, relayState, sigAlg, signature);
    var p, q := Parameter(parameter, message), "&" + Parameter("SigAlg", sigAlg);
    assert parameter + "=" + QueryEscape(message) == p;
    assert "&" + ("SigAlg" + "=" + QueryEscape(sigAlg)) == "&SigAlg=" + QueryEscape(sigAlg);
    assert "&" + ("RelayState" + "=" + QueryEscape(relayState)) == "&RelayState=" + QueryEscape(relayState);
    assert p + "" + "&SigAlg=" + QueryEscape(sigAlg) == p + "" + ("&SigAlg=" + QueryEscape(sigAlg));
    var r := p + ("&RelayState=" + QueryEscape(relayState));
    assert r + "&SigAlg=" + QueryEscape(sigAlg) == r + ("&SigAlg=" + QueryEscape(sigAlg));
    assert r + "&" + Parameter("SigAlg", sigAlg) == r + q;
    assert p + "" + "&" + Parameter("SigAlg", sigAlg) == p + "" + q;
  }

  lemma KeysDiffer()
    ensures "SAMLRequest" != "RelayState" && "SAMLRequest" != "SigAlg" && "SAMLRequest" != "Signature"
    ensures "SAMLResponse" != "RelayState" && "SAMLResponse" != "SigAlg" && "SAMLResponse" != "Signature"
    ensures "RelayState" != "SigAlg" && "RelayState" != "Signature" && "SigAlg" != "Signature"
  {
    assert "RelayState"[0] != "SigAlg"[0];
  }

  lemma ProducedMap(parameter: string, message: string, relayState: string, sigAlg: string, signature: string)
    requires MessageParameter(parameter)
    ensures var m := MapOf(ProducedPairs(parameter, message, relayState, sigAlg, signature));
            && parameter in m && m[parameter] == QueryEscape(message)
            && "SigAlg" in m && m["SigAlg"] == QueryEscape(sigAlg)
            && "Signature" in m && m["Signature"] == QueryEscape(signature)
            && Lookup(m, "RelayState") == (if relayState == "" then None else Some(QueryEscape(relayState)))
  {
    hide QueryEscape, MapOf;
    KeysDiffer();
    var kvs := ProducedPairs(parameter, message, relayState, sigAlg, signature);
    MapOfDistinct(kvs, 0);
    MapOfDistinct(kvs, |kvs| - 1);
    MapOfDistinct(kvs, |kvs| - 2);
    MapOfKeys(kvs, "RelayState");
    if relayState != "" {
      MapOfDistinct(kvs, 1);
    }
  }

  function Lookup(m: map<string, string>, key: string): Option<string> {
    if key in m then Some(m[key]) else None
  }

  // ---------------------------------------------------------------- decoding, from net/url

  /** The pair decoded, or None when the decoder drops it. */
  function Decoded(pair: string): Option<(string, string)> {
    if ';' in pair || pair == "" then None
    else
      var key, value := QueryUnescape(RawKey(pair)), QueryUnescape(RawValue(pair));
      if key.None? || value.None? then None else Some((key.value, value.value))
  }

  /** A pair is decoded to a key and a value if and only if it is not empty, has no semicolon, and is written with
      spellings of the two. */
  lemma PairDecodes(pair: string, key: string, value: string)
    ensures Decoded(pair) == Some((key, value))
       <==> && pair != "" && ';' !in pair
            && exists k, v :: WrittenAs(pair, k, v) && Spells(k, key) && Spells(v, value)
  {
    hide QueryUnescape, RawKey, RawValue, Spells, WrittenAs;
    var rk, rv := RawKey(pair), RawValue(pair);
    PairIsWrittenAs(pair, rk, rv);
    DecodesSpellings(rk, key);
    DecodesSpellings(rv, value);
    if k, v :| WrittenAs(pair, k, v) && Spells(k, key) && Spells(v, value) {
      PairIsWrittenAs(pair, k, v);
    }
  }

  /** The values that the decoder holds for `key`, in order. */
  function Values(pairs: seq<string>, key: string): seq<string> {
    if pairs == [] then []
    else
      var kv := Decoded(pairs[0]);
      (if kv.Some? && kv.value.0 == key then [kv.value.1] else []) + Values(pairs[1..], key)
  }

  function Held(m: map<string, seq<string>>, key: string): seq<string> {
    if key in m then m[key] else []
  }

  /** One round of the loop of `url.ParseQuery`. */
  method AddPair(m: map<string, seq<string>>, pair: string) returns (m': map<string, seq<string>>)
    ensures forall key :: Held(m', key) == Held(m, key) + Values([pair], key)
  {
    hide QueryUnescape, Decoded, Find, Values;
    var kv := Decoded(pair);
    m' := m;
    if kv.Some? {
      var (key, value) := kv.value;
      m' := m[key := Held(m, key) + [value]];
    }
    forall key ensures Held(m', key) == Held(m, key) + Values([pair], key) {
      ValuesOne(pair, key);
    }
  }

  /** `url.ParseQuery`, as a map to the list of values. */
  method ParseQuery(rawQuery: string) returns (m: map<string, seq<string>>)
    ensures forall key :: Held(m, key) == Values(Split(rawQuery), key)
  {
    hide Find, Values, Split, Held;
    var query := rawQuery;
    m := map[];
    ghost var done: seq<string> := [];
    EmptyHasNoValues();
    forall key ensures Held(m, key) == [] { NothingHeld(key); }
    assert [] + Split(rawQuery) == Split(rawQuery);
    while query != ""
      invariant done + Split(query) == Split(rawQuery) || (query == "" && done == Split(rawQuery))
      invariant forall key :: Held(m, key) == Values(done, key)
      decreases |query|
    {
      var i := Find(query, '&');
      var pair := query[..i];
      ghost var before := done;
      SplitFirst(query);
      done := done + [pair];
      forall key ensures Values(done, key) == Values(before, key) + Values([pair], key) {
        ValuesConcat(before, [pair], key);
      }
      m := AddPair(m, pair);
      if i == |query| {
        query := "";
      } else {
        assert before + ([pair] + Split(query[i + 1..])) == done + Split(query[i + 1..]);
        query := query[i + 1..];
      }
    }
    forall key ensures Values(done + [""], key) == Values(done, key) {
      ValuesConcat(done, [""], key);
      assert Values(done, key) + [] == Values(done, key);
    }
  }

  lemma NothingHeld(key: string)
    ensures Held(map[], key) == []
  {
  }

  lemma SplitFirst(s: string)
    ensures var i := Find(s, '&');
            Split(s) == if i == |s| then [s[..i]] else [s[..i]] + Split(s[i + 1..])
  {
    hide Find;
    assert s[..|s|] == s;
  }

  lemma EmptyHasNoValues()
    ensures Split("") == [""] && forall key :: Values([""], key) == [] && Values([], key) == []
  {
    forall key ensures Values([""], key) == [] {
      assert [""][1..] == [];
    }
  }

  lemma {:induction false} ValuesConcat(s: seq<string>, t: seq<string>, key: string)
    ensures Values(s + t, key) == Values(s, key) + Values(t, key)
  {
    hide Decoded;
    if s == [] {
      assert [] + t == t;
      assert [] + Values(t, key) == Values(t, key);
    } else {
      assert (s + t)[0] == s[0] && (s + t)[1..] == s[1..] + t;
      ValuesConcat(s[1..], t, key);
      var kv := Decoded(s[0]);
      var own := if kv.Some? && kv.value.0 == key then [kv.value.1] else [];
      assert own + (Values(s[1..], key) + Values(t, key)) == own + Values(s[1..], key) + Values(t, key);
    }
  }

  lemma ValuesOne(pair: string, key: string)
    ensures var kv := Decoded(pair);
            Values([pair], key) == if kv.Some? && kv.value.0 == key then [kv.value.1] else []
  {
    hide Decoded;
    assert [pair][1..] == [];
    var kv := Decoded(pair);
    var own := if kv.Some? && kv.value.0 == key then [kv.value.1] else [];
    assert own + [] == own;
  }

  /** The raw values of a reserved parameter. */
  function RawValues(kvs: seq<(string, string)>, key: string): seq<string> {
    if kvs == [] then [] else (if kvs[0].0 == key then [kvs[0].1] else []) + RawValues(kvs[1..], key)
  }

  /** The decoder drops some values of a reserved parameter and decodes the others. */
  lemma {:induction false} DecodesSome(pairs: seq<string>, key: string)
    requires key in RESERVED && ReservedPairs(pairs).Some?
    ensures var raw := RawValues(ReservedPairs(pairs).value, key);
            && |Values(pairs, key)| <= |raw|
            && forall v :: v in Values(pairs, key) ==> exists r :: r in raw && QueryUnescape(r) == Some(v)
  {
    hide QueryUnescape, RawKey, RawValue;
    if pairs != [] {
      DecodesSome(pairs[1..], key);
      var raw, rest := RawValues(ReservedPairs(pairs).value, key), RawValues(ReservedPairs(pairs[1..]).value, key);
      var k := QueryUnescape(RawKey(pairs[0])).value;
      if k in RESERVED {
        assert ReservedPairs(pairs).value[1..] == ReservedPairs(pairs[1..]).value;
      }
      assert forall r :: r in rest ==> r in raw;
      forall v | v in Values(pairs, key) ensures exists r :: r in raw && QueryUnescape(r) == Some(v) {
        if v in Values(pairs[1..], key) {
          var r :| r in rest && QueryUnescape(r) == Some(v);
          assert r in raw;
        } else {
          assert Decoded(pairs[0]) == Some((key, v));
          assert RawValue(pairs[0]) in raw;
        }
      }
    }
  }

  lemma {:induction false} DistinctRaw(kvs: seq<(string, string)>, key: string)
    requires DistinctKeys(kvs)
    ensures |RawValues(kvs, key)| <= 1
    ensures forall r :: r in RawValues(kvs, key) ==> key in MapOf(kvs) && MapOf(kvs)[key] == r
  {
    if kvs != [] {
      DistinctRaw(kvs[1..], key);
      MapOfKeys(kvs[1..], kvs[0].0);
      if kvs[0].0 == key {
        NoRaw(kvs[1..], key);
      }
    }
  }

  lemma {:induction false} NoRaw(kvs: seq<(string, string)>, key: string)
    requires forall i :: 0 <= i < |kvs| ==> kvs[i].0 != key
    ensures RawValues(kvs, key) == []
  {
    if kvs != [] {
      NoRaw(kvs[1..], key);
    }
  }

  /** Whatever the query, if `redirectParameters` succeeds then the decoder holds at most one value for a
      reserved parameter, and that is the value which is verified, decoded. */
  lemma DecoderAgrees(rawQuery: string, key: string)
    requires key in RESERVED
    requires ReservedPairs(Split(rawQuery)).Some? && DistinctKeys(ReservedPairs(Split(rawQuery)).value)
    ensures var parameters, values := MapOf(ReservedPairs(Split(rawQuery)).value), Values(Split(rawQuery), key);
            && |values| <= 1
            && (values != [] ==> key in parameters && QueryUnescape(parameters[key]) == Some(values[0]))
  {
    hide ReservedPairs, Split, MapOf, Values, RawValues, QueryUnescape;
    DecodesSome(Split(rawQuery), key);
    DistinctRaw(ReservedPairs(Split(rawQuery)).value, key);
    var values := Values(Split(rawQuery), key);
    if values != [] { assert values[0] in values; }
  }

  /** A semicolon in a key is still there when the key is decoded. */
  lemma {:induction false} SemicolonStays(s: string)
    requires QueryUnescape(s).Some? && ';' in s
    ensures ';' in QueryUnescape(s).value
    decreases |s|
  {
    hide Unhex;
    var k := if s[0] == '%' then 3 else 1;
    if s[0] == '%' {
      assert Unhex(s[1]).Some? && Unhex(s[2]).Some?;
      assert s[1] != ';' && s[2] != ';' by { SemicolonIsNotHex(); }
    }
    var rest := QueryUnescape(s[k..]).value;
    assert QueryUnescape(s).value[1..] == rest;
    if s[0] != ';' {
      assert s == s[..k] + s[k..];
      assert ';' in s[k..];
      SemicolonStays(s[k..]);
      assert ';' in rest;
    } else {
      assert QueryUnescape(s).value[0] == ';';
    }
  }

  lemma SemicolonIsNotHex()
    ensures Unhex(';').None?
  {
  }

  lemma ReservedDecoded(pair: string, key: string)
    requires key in RESERVED && QueryUnescape(RawKey(pair)) == Some(key)
    requires ';' !in RawValue(pair) && QueryUnescape(RawValue(pair)).Some?
    ensures Decoded(pair) == Some((key, QueryUnescape(RawValue(pair)).value))
  {
    hide QueryUnescape, IsLetter;
    var i := Find(pair, '=');
    if ';' in RawKey(pair) {
      SemicolonStays(RawKey(pair));
      ReservedKey(key);
      NotLetters();
      assert false;
    }
    if i < |pair| {
      assert pair == RawKey(pair) + ['='] + RawValue(pair);
    } else {
      assert pair == RawKey(pair);
    }
    EmptyDecodes();
    assert key != "";
  }

  lemma EmptyDecodes()
    ensures QueryUnescape("") == Some("") && RawKey("") == ""
  {
  }

  /** Values which are well formed are not dropped. */
  lemma {:induction false} DecodesAll(pairs: seq<string>, key: string)
    requires key in RESERVED && ReservedPairs(pairs).Some?
    requires forall r :: r in RawValues(ReservedPairs(pairs).value, key) ==> ';' !in r && QueryUnescape(r).Some?
    ensures var raw, values := RawValues(ReservedPairs(pairs).value, key), Values(pairs, key);
            |values| == |raw| && forall i :: 0 <= i < |raw| ==> QueryUnescape(raw[i]) == Some(values[i])
  {
    hide QueryUnescape, RawKey, RawValue, Decoded, ReservedPairs, RawValues, Values;
    if pairs == [] {
      NothingDecoded(key);
    } else {
      var rest := pairs[1..];
      RawNext(pairs, key);
      assert pairs == [pairs[0]] + rest;
      ValuesConcat([pairs[0]], rest, key);
      ValuesOne(pairs[0], key);
      DecodesAll(rest, key);
      if QueryUnescape(RawKey(pairs[0])) == Some(key) {
        assert RawValue(pairs[0]) in RawValues(ReservedPairs(pairs).value, key);
        ReservedDecoded(pairs[0], key);
      } else {
        OtherKey(pairs[0], key);
      }
    }
  }

  lemma NothingDecoded(key: string)
    ensures ReservedPairs([]) == Some([]) && RawValues([], key) == [] && Values([], key) == []
  {
  }

  /** The raw values of a reserved parameter, one pair further. */
  lemma RawNext(pairs: seq<string>, key: string)
    requires pairs != [] && key in RESERVED && ReservedPairs(pairs).Some?
    ensures ReservedPairs(pairs[1..]).Some?
    ensures RawValues(ReservedPairs(pairs).value, key)
         == (if QueryUnescape(RawKey(pairs[0])) == Some(key) then [RawValue(pairs[0])] else [])
            + RawValues(ReservedPairs(pairs[1..]).value, key)
  {
    hide QueryUnescape, RawKey, RawValue;
    var kvs, rest := ReservedPairs(pairs).value, ReservedPairs(pairs[1..]).value;
    if QueryUnescape(RawKey(pairs[0])).value in RESERVED {
      assert kvs[1..] == rest;
    } else {
      assert [] + RawValues(rest, key) == RawValues(rest, key);
    }
  }

  lemma OtherKey(pair: string, key: string)
    requires QueryUnescape(RawKey(pair)) != Some(key)
    ensures Decoded(pair).Some? ==> Decoded(pair).value.0 != key
  {
  }

  lemma {:induction false} RawOfDistinct(kvs: seq<(string, string)>, key: string)
    requires DistinctKeys(kvs)
    ensures RawValues(kvs, key) == if key in MapOf(kvs) then [MapOf(kvs)[key]] else []
  {
    if kvs != [] {
      RawOfDistinct(kvs[1..], key);
      MapOfKeys(kvs[1..], kvs[0].0);
      MapOfKeys(kvs[1..], key);
      if kvs[0].0 == key {
        assert [kvs[0].1] + [] == [kvs[0].1];
      } else {
        assert [] + RawValues(kvs[1..], key) == RawValues(kvs[1..], key);
      }
    }
  }

  lemma EscapedDecodes(s: string)
    requires Bytes(s)
    ensures ';' !in QueryEscape(s) && QueryUnescape(QueryEscape(s)) == Some(s)
  {
    EscapedIsPlain(s, ';');
    UnescapeEscape(s);
  }

  /** From the produced query, or any reordering of it among other pairs, the decoder gets the message
      and the relay state back. */
  lemma DecodesOriginal(rawQuery: string, parameter: string, message: string, relayState: string, sigAlg: string, signature: string)
    requires MessageParameter(parameter) && Bytes(message) && Bytes(relayState)
    requires ReservedPairs(Split(rawQuery)).Some?
    requires multiset(ReservedPairs(Split(rawQuery)).value)
          == multiset(ProducedPairs(parameter, message, relayState, sigAlg, signature))
    ensures Values(Split(rawQuery), parameter) == [message]
    ensures Values(Split(rawQuery), "RelayState") == if relayState == "" then [] else [relayState]
  {
    hide ReservedPairs, Split, QueryEscape, QueryUnescape, MapOf, Values, RawValues, ProducedPairs, Bytes;
    RebuildsSigned(rawQuery, parameter, message, relayState, sigAlg, signature);
    ProducedMap(parameter, message, relayState, sigAlg, signature);
    EscapedDecodes(message);
    EscapedDecodes(relayState);
    var pairs := Split(rawQuery);
    var kvs := ReservedPairs(pairs).value;
    RawOfDistinct(kvs, parameter);
    DecodesAll(pairs, parameter);
    RawOfDistinct(kvs, "RelayState");
    DecodesAll(pairs, "RelayState");
  }

  /** What the sender signs is accepted: from the produced query or any reordering of it, the check is
      made on the string, the algorithm and the signature that the sender had. */
  lemma SignedQueryVerifies(rawQuery: string, parameter: string, message: string, relayState: string, sigAlg: string,
                            signature: string, check: Checker)
    requires MessageParameter(parameter) && Bytes(sigAlg) && Bytes(signature)
    requires ReservedPairs(Split(rawQuery)).Some?
    requires multiset(ReservedPairs(Split(rawQuery)).value)
          == multiset(ProducedPairs(parameter, message, relayState, sigAlg, signature))
    ensures Accepts(rawQuery, parameter, check)
       <==> check(sigAlg, SignedString(parameter, message, relayState, sigAlg), signature)
  {
    hide ReservedPairs, Split, QueryEscape, QueryUnescape, MapOf, ProducedPairs, SignedString, DistinctKeys;
    RebuildsSigned(rawQuery, parameter, message, relayState, sigAlg, signature);
    ProducedMap(parameter, message, relayState, sigAlg, signature);
    UnescapeEscape(sigAlg);
    UnescapeEscape(signature);
  }

  // ---------------------------------------------------------------- any order, among any other pairs

  lemma {:induction false} ReservedPermuted(s: seq<string>, t: seq<string>)
    requires multiset(s) == multiset(t) && ReservedPairs(s).Some?
    ensures ReservedPairs(t).Some? && multiset(ReservedPairs(t).value) == multiset(ReservedPairs(s).value)
    decreases |t|
  {
    hide ReservedPairs;
    if t == [] {
      assert |s| == |multiset(s)| == 0;
    } else {
      var i := IndexOf(s, t);
      var before, one, after := s[..i], [s[i]], s[i + 1..];
      assert s == before + one + after && t == one + t[1..];
      ReservedConcat(before + one, after);
      ReservedConcat(before, one);
      ReservedConcat(before, after);
      ReservedConcat(one, t[1..]);
      ReservedPermuted(before + after, t[1..]);
    }
  }

  lemma IndexOf(s: seq<string>, t: seq<string>) returns (i: nat)
    requires t != [] && multiset(s) == multiset(t)
    ensures i < |s| && s[i] == t[0] && multiset(s[..i] + s[i + 1..]) == multiset(t[1..])
  {
    HeadInBoth(s, t);
    i :| 0 <= i < |s| && s[i] == t[0];
    RemoveBoth(s, i, t);
  }

  lemma RemoveBoth<T>(s: seq<T>, i: nat, t: seq<T>)
    requires t != [] && i < |s| && s[i] == t[0] && multiset(s) == multiset(t)
    ensures multiset(s[..i] + s[i + 1..]) == multiset(t[1..])
  {
    Without(s, i);
    WithoutHead(t);
    Cancel(multiset(s[..i] + s[i + 1..]), multiset(t[1..]), t[0]);
  }

  lemma WithoutHead<T>(t: seq<T>)
    requires t != []
    ensures multiset(t) == multiset(t[1..]) + multiset{t[0]}
  {
    assert t == [t[0]] + t[1..];
  }

  lemma Cancel<T>(a: multiset<T>, b: multiset<T>, x: T)
    requires a + multiset{x} == b + multiset{x}
    ensures a == b
  {
    forall y ensures a[y] == b[y] {
      assert (a + multiset{x})[y] == (b + multiset{x})[y];
    }
  }

  lemma HeadInBoth<T>(s: seq<T>, t: seq<T>)
    requires t != [] && multiset(s) == multiset(t)
    ensures t[0] in s
  {
    assert t[0] in multiset(t);
  }

  lemma Without<T>(s: seq<T>, i: nat)
    requires i < |s|
    ensures multiset(s) == multiset(s[..i] + s[i + 1..]) + multiset{s[i]}
  {
    assert s == s[..i] + [s[i]] + s[i + 1..];
  }

  /** Another pair: its key can be decoded and is not reserved. */
  predicate Ignored(pair: string) {
    '&' !in pair && QueryUnescape(RawKey(pair)).Some? && QueryUnescape(RawKey(pair)).value !in RESERVED
  }

  lemma {:induction false} IgnoredPairs(extra: seq<string>)
    requires forall e :: e in extra ==> Ignored(e)
    ensures ReservedPairs(extra) == Some([])
  {
    hide QueryUnescape, RawKey;
    if extra != [] {
      assert Ignored(extra[0]);
      IgnoredPairs(extra[1..]);
    }
  }

  lemma {:induction false} SplitPlain(s: string)
    ensures forall p :: p in Split(s) ==> '&' !in p
    decreases |s|
  {
    hide Find;
    var i := Find(s, '&');
    if i < |s| {
      SplitPlain(s[i + 1..]);
    } else {
      assert s[..i] == s;
    }
  }

  /** A query with the pairs of the produced one, in any order, and any other pairs among them. */
  ghost predicate Rearranged(produced: string, extra: seq<string>, pairs: seq<string>) {
    multiset(pairs) == multiset(Split(produced)) + multiset(extra) && forall e :: e in extra ==> Ignored(e)
  }

  lemma RearrangedReserved(produced: string, extra: seq<string>, pairs: seq<string>)
    requires Rearranged(produced, extra, pairs) && ReservedPairs(Split(produced)).Some?
    ensures pairs != []
    ensures var rp := ReservedPairs(Split(Join(pairs)));
            rp.Some? && multiset(rp.value) == multiset(ReservedPairs(Split(produced)).value)
  {
    hide Split, ReservedPairs, Ignored;
    var own := Split(produced);
    assert multiset(own + extra) == multiset(pairs);
    assert |multiset(pairs)| == |own| + |extra| > 0;
    IgnoredPairs(extra);
    ReservedConcat(own, extra);
    ReservedPermuted(own + extra, pairs);
    SplitPlain(produced);
    forall p | p in pairs ensures '&' !in p {
      assert p in multiset(pairs);
      assert p in own || p in extra by {
        assert p in multiset(own) || p in multiset(extra);
      }
      IgnoredPlain(p);
    }
    SplitJoin(pairs);
    assert ReservedPairs(own).value + [] == ReservedPairs(own).value;
  }

  lemma IgnoredPlain(pair: string)
    ensures Ignored(pair) ==> '&' !in pair
  {
  }

  /** The signed query of the sender, with its pairs in any order among any other pairs, is accepted if and only
      if the signature checks, and decodes to what was sent. */
  lemma RearrangedQueryVerifies(
      existing: string, parameter: string, message: string, relayState: string, sigAlg: string, signature: string,
      extra: seq<string>, pairs: seq<string>, check: Checker)
    requires MessageParameter(parameter)
    requires Bytes(message) && Bytes(relayState) && Bytes(sigAlg) && Bytes(signature)
    requires existing == "" || ReservedPairs(Split(existing)) == Some([])
    requires Rearranged(ProducedQuery(existing, parameter, message, relayState, sigAlg, signature), extra, pairs)
    ensures pairs != []
    ensures Accepts(Join(pairs), parameter, check)
       <==> check(sigAlg, SignedString(parameter, message, relayState, sigAlg), signature)
    ensures Values(Split(Join(pairs)), parameter) == [message]
    ensures Values(Split(Join(pairs)), "RelayState") == if relayState == "" then [] else [relayState]
  {
    hide Accepts, ProducedQuery, ProducedPairs, ReservedPairs, Split, Values, SignedString, Join, Rearranged;
    ProducedReserved(existing, parameter, message, relayState, sigAlg, signature);
    RearrangedReserved(ProducedQuery(existing, parameter, message, relayState, sigAlg, signature), extra, pairs);
    SignedQueryVerifies(Join(pairs), parameter, message, relayState, sigAlg, signature, check);
    DecodesOriginal(Join(pairs), parameter, message, relayState, sigAlg, signature);
  }
}
