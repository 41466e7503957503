/** The attribute meta strings of the loader's schema check:
    `ldr_get_token`, the delimiter tokenizer, and
    `ldr_compare_attribute_with_meta`, which parses
    `[name](type)(order)(storage_order)(S|I)` and compares it with an
    attribute of the database schema.  The meta buffer is a C string;
    positions inside it stand for the pointers `ldr_get_token` passes
    along, `None` for NULL. */
module LoaddbMeta {
  import opened CText

  /** Status codes of the loader. */
  const NoError: int := 0
  const ErFailed: int := -1

  /** First position at or after `i` that holds `c`, or `|s|`. */
  function FindChar(s: seq<char>, i: nat, c: char): (e: nat)
    requires i <= |s|
    ensures i <= e <= |s|
    ensures forall j :: i <= j < e ==> s[j] != c
    ensures e < |s| ==> s[e] == c
    decreases |s| - i
  {
    if i == |s| || s[i] == c then i else FindChar(s, i + 1, c)
  }

  /** `ldr_get_token` from position `pos` of `s`: skips one leading `start`
      delimiter if present, then looks for the first `end` delimiter.  With
      no `end` the result is NULL; otherwise the result is the position just
      past it, and the token is the text between the two delimiters, or
      NULL when the text did not begin with `start`.  A NULL position gives
      NULL and a NULL token. */
  function GetToken(s: seq<char>, pos: Option<nat>, start: char, end: char): (r: (Option<nat>, Option<seq<char>>))
    requires end != '\0'
    requires pos.Some? ==> pos.value <= |s|
    ensures pos.None? ==> r == (None, None)
    ensures r.0.None? ==> r.1.None?
    ensures r.0.Some? ==> pos.Some? && pos.value < r.0.value <= |s| && s[r.0.value - 1] == end
    ensures r.0.Some? ==>
              var b := if pos.value < |s| && s[pos.value] == start then pos.value + 1 else pos.value;
              b < r.0.value && forall j :: b <= j < r.0.value - 1 ==> s[j] != end
    ensures pos.Some? && r.0.None? ==>
              var b := if pos.value < |s| && s[pos.value] == start then pos.value + 1 else pos.value;
              forall j :: b <= j < |s| ==> s[j] != end
    ensures r.1.Some? <==> r.0.Some? && s[pos.value] == start
    ensures r.1.Some? ==> r.1.value == s[pos.value + 1..r.0.value - 1]
  {
    if pos.None? then (None, None)
    else
      var i := pos.value;
      var open := i < |s| && s[i] == start;
      var b := if open then i + 1 else i;
      var e := FindChar(s, b, end);
      if e == |s| then (None, None)
      else (Some(e + 1), if open then Some(s[b..e]) else None)
  }

  /** A token between its two delimiters. */
  function Bracket(start: char, t: seq<char>, end: char): seq<char> {
    [start] + t + [end]
  }

  /** A delimited token at position `|a|` is found, and the position after
      it is returned. */
  lemma GetTokenRoundTrip(a: seq<char>, t: seq<char>, c: seq<char>, start: char, end: char)
    requires end != '\0'
    requires end !in t
    ensures GetToken(a + Bracket(start, t, end) + c, Some(|a|), start, end)
            == (Some(|a| + |t| + 2), Some(t))
  {
    var s := a + Bracket(start, t, end) + c;
    assert s[|a|] == start;
    assert forall j :: |a| + 1 <= j < |a| + 1 + |t| ==> s[j] == t[j - |a| - 1];
    assert s[|a| + 1 + |t|] == end;
    assert s[|a| + 1..|a| + 1 + |t|] == t;
  }

  /** `GetTokenRoundTrip` for a string that starts with `a` and a
      bracketed token. */
  lemma TokenStep(s: seq<char>, a: seq<char>, t: seq<char>, start: char, end: char)
    requires a + Bracket(start, t, end) <= s
    requires end != '\0' && end !in t
    ensures GetToken(s, Some(|a|), start, end) == (Some(|a + Bracket(start, t, end)|), Some(t))
  {
    var p := a + Bracket(start, t, end);
    assert s == p + s[|p|..];
    GetTokenRoundTrip(a, t, s[|p|..], start, end);
  }

  /** `parse_int` in base 10 (its source is not part of this model): an
      optional sign followed by at least one decimal digit, denoting a value
      in the 32-bit `int` range; anything else is an error. */
  function ParseInt(s: seq<char>): (r: Option<int>)
    ensures r.Some? ==> -0x8000_0000 <= r.value < 0x8000_0000
  {
    var neg := |s| > 0 && s[0] == '-';
    var signed := |s| > 0 && (s[0] == '-' || s[0] == '+');
    var d := if signed then s[1..] else s;
    if |d| == 0 || !AllDigits(d) then None
    else
      var v: int := if neg then -(DigitsValue(d) as int) else DigitsValue(d);
      if -0x8000_0000 <= v < 0x8000_0000 then Some(v) else None
  }

  /** Decimal spelling of an integer, with a minus sign when negative. */
  function IntToString(n: int): (s: seq<char>)
    ensures |s| > 0 && (forall i :: 0 <= i < |s| ==> IsDigit(s[i]) || s[i] == '-')
  {
    if n < 0 then "-" + NatToDigits(-n) else NatToDigits(n)
  }

  lemma ParseIntRoundTrip(n: int)
    requires -0x8000_0000 <= n < 0x8000_0000
    ensures ParseInt(IntToString(n)) == Some(n)
  {
    if n < 0 {
      var s := IntToString(n);
      assert s[1..] == NatToDigits(-n);
      DigitsRoundTrip(-n);
    } else {
      DigitsRoundTrip(n);
    }
  }

  /** A schema attribute as the comparison sees it (`db_attribute_type`,
      `db_attribute_order`, `storage_order`, `db_attribute_is_shared`,
      `db_attribute_name`). */
  datatype Attribute = Attribute(name: seq<char>, attrType: int, order: int, storageOrder: int, isShared: bool)

  /** What a well-formed meta string says about an attribute. */
  datatype Meta = Meta(name: seq<char>, attrType: int, order: int, storageOrder: int, shared: bool)

  /** The five tokens of a meta string, in order; a missing token is `None`. */
  function MetaTokens(meta: seq<char>): (r: seq<Option<seq<char>>>)
    ensures |r| == 5
    ensures r[0].Some? ==> |r[0].value| < |meta| && meta[0] == '[' && ']' !in r[0].value
    ensures forall k :: 1 <= k < 5 && r[k].Some? ==> ')' !in r[k].value
  {
    var g1 := GetToken(meta, Some(0), '[', ']');
    var g2 := GetToken(meta, g1.0, '(', ')');
    var g3 := GetToken(meta, g2.0, '(', ')');
    var g4 := GetToken(meta, g3.0, '(', ')');
    var g5 := GetToken(meta, g4.0, '(', ')');
    [g1.1, g2.1, g3.1, g4.1, g5.1]
  }

  /** The shared flag token: only its first character counts, `S` for a
      shared attribute and `I` for an instance one. */
  function SharedFlag(t: seq<char>): (r: Option<bool>)
    ensures r.Some? <==> |t| > 0 && (t[0] == 'S' || t[0] == 'I')
    ensures r.Some? ==> (r.value <==> t[0] == 'S')
  {
    if |t| > 0 && t[0] == 'S' then Some(true)
    else if |t| > 0 && t[0] == 'I' then Some(false)
    else None
  }

  /** The meta five tokens denote, when all are present, the middle three
      are integers and the flag is `S` or `I`. */
  function DecodeMeta(ts: seq<Option<seq<char>>>): (r: Option<Meta>)
    requires |ts| == 5
    ensures r.Some? <==>
              ts[0].Some? && ts[1].Some? && ts[2].Some? && ts[3].Some? && ts[4].Some?
              && ParseInt(ts[1].value).Some? && ParseInt(ts[2].value).Some?
              && ParseInt(ts[3].value).Some? && SharedFlag(ts[4].value).Some?
  {
    if ts[0].Some? && ts[1].Some? && ts[2].Some? && ts[3].Some? && ts[4].Some? then
      var ty := ParseInt(ts[1].value);
      var ord := ParseInt(ts[2].value);
      var sto := ParseInt(ts[3].value);
      var sh := SharedFlag(ts[4].value);
      if ty.Some? && ord.Some? && sto.Some? && sh.Some? then
        Some(Meta(ts[0].value, ty.value, ord.value, sto.value, sh.value))
      else None
    else None
  }

  /** The meta a string denotes. */
  function ParseMeta(meta: seq<char>): Option<Meta> {
    DecodeMeta(MetaTokens(meta))
  }

  /** The meta string describing `m`, as the schema dump writes it. */
  function FormatMeta(m: Meta): seq<char> {
    Bracket('[', m.name, ']') + Bracket('(', IntToString(m.attrType), ')')
    + Bracket('(', IntToString(m.order), ')') + Bracket('(', IntToString(m.storageOrder), ')')
    + Bracket('(', if m.shared then "S" else "I", ')')
  }

  /** The meta of an attribute. */
  function MetaOf(a: Attribute): Meta {
    Meta(a.name, a.attrType, a.order, a.storageOrder, a.isShared)
  }

  /** Ranges the meta fields can take when written by the dump. */
  predicate Printable(m: Meta) {
    ']' !in m.name
    && -0x8000_0000 <= m.attrType < 0x8000_0000
    && -0x8000_0000 <= m.order < 0x8000_0000
    && -0x8000_0000 <= m.storageOrder < 0x8000_0000
  }

  lemma IntTokenClean(n: int)
    ensures ')' !in IntToString(n)
  {
  }

  /** Five bracketed tokens are read back one by one. */
  lemma {:induction false} FiveTokens(n: seq<char>, t1: seq<char>, t2: seq<char>, t3: seq<char>, t4: seq<char>)
    requires ']' !in n && ')' !in t1 && ')' !in t2 && ')' !in t3 && ')' !in t4
    ensures var s := Bracket('[', n, ']') + Bracket('(', t1, ')') + Bracket('(', t2, ')')
                     + Bracket('(', t3, ')') + Bracket('(', t4, ')');
            MetaTokens(s) == [Some(n), Some(t1), Some(t2), Some(t3), Some(t4)]
  {
    var b1, b2, b3 := Bracket('[', n, ']'), Bracket('(', t1, ')'), Bracket('(', t2, ')');
    var b4, b5 := Bracket('(', t3, ')'), Bracket('(', t4, ')');
    var s := b1 + b2 + b3 + b4 + b5;
    assert [] + b1 == b1;
    TokenStep(s, [], n, '[', ']');
    TokenStep(s, b1, t1, '(', ')');
    TokenStep(s, b1 + b2, t2, '(', ')');
    TokenStep(s, b1 + b2 + b3, t3, '(', ')');
    TokenStep(s, b1 + b2 + b3 + b4, t4, '(', ')');
    var g1 := GetToken(s, Some(0), '[', ']');
    assert g1 == (Some(|b1|), Some(n));
    var g2 := GetToken(s, g1.0, '(', ')');
    assert g2 == (Some(|b1 + b2|), Some(t1));
    var g3 := GetToken(s, g2.0, '(', ')');
    assert g3 == (Some(|b1 + b2 + b3|), Some(t2));
    var g4 := GetToken(s, g3.0, '(', ')');
    assert g4 == (Some(|b1 + b2 + b3 + b4|), Some(t3));
    var g5 := GetToken(s, g4.0, '(', ')');
    assert g5.1 == Some(t4);
  }

  /** Decoding five tokens whose values are known. */
  lemma DecodeKnownTokens(name: seq<char>, t1: seq<char>, t2: seq<char>, t3: seq<char>, t4: seq<char>, m: Meta)
    requires m.name == name && ParseInt(t1) == Some(m.attrType) && ParseInt(t2) == Some(m.order)
    requires ParseInt(t3) == Some(m.storageOrder) && SharedFlag(t4) == Some(m.shared)
    ensures DecodeMeta([Some(name), Some(t1), Some(t2), Some(t3), Some(t4)]) == Some(m)
  {
  }

  /** Comparing four tokens whose integers are known, without a flag. */
  lemma CompareKnownTokensWithoutFlag(name: seq<char>, t1: seq<char>, t2: seq<char>, t3: seq<char>, a: Attribute)
    requires ParseInt(t1).Some? && ParseInt(t2).Some? && ParseInt(t3).Some?
    ensures CompareTokensAsWritten([Some(name), Some(t1), Some(t2), Some(t3), None], a) == NullDeref
  {
  }

  /** Parsing the string that describes a meta gives back that meta. */
  lemma ParseFormatRoundTrip(m: Meta)
    requires Printable(m)
    ensures ParseMeta(FormatMeta(m)) == Some(m)
  {
    IntTokenClean(m.attrType);
    IntTokenClean(m.order);
    IntTokenClean(m.storageOrder);
    var t4: seq<char> := if m.shared then "S" else "I";
    var ts := [Some(m.name), Some(IntToString(m.attrType)), Some(IntToString(m.order)),
               Some(IntToString(m.storageOrder)), Some(t4)];
    FiveTokens(m.name, IntToString(m.attrType), IntToString(m.order), IntToString(m.storageOrder), t4);
    assert MetaTokens(FormatMeta(m)) == ts;
    ParseIntRoundTrip(m.attrType);
    ParseIntRoundTrip(m.order);
    ParseIntRoundTrip(m.storageOrder);
    assert SharedFlag(t4) == Some(m.shared);
    DecodeKnownTokens(m.name, IntToString(m.attrType), IntToString(m.order), IntToString(m.storageOrder), t4, m);
  }

  /** Whether a parsed meta agrees with an attribute in every compared
      field: type, order, storage order, shared flag and name. */
  predicate Matches(m: Meta, a: Attribute) {
    m.attrType == a.attrType && m.order == a.order && m.storageOrder == a.storageOrder
    && m.shared == a.isShared && m.name == a.name
  }

  /** What a call of the comparison can end in: a returned status, or a
      read through a NULL pointer. */
  datatype Outcome = Returned(code: int) | NullDeref

  /** The comparison as written, once the tokens are cut out: the NULL
      test covers only the first four tokens, so when the three integers
      parse the flag token is read even if it is NULL. */
  function CompareTokensAsWritten(ts: seq<Option<seq<char>>>, a: Attribute): (r: Outcome)
    requires |ts| == 5
    ensures r.NullDeref? <==>
              ts[0].Some? && ts[1].Some? && ts[2].Some? && ts[3].Some? && ts[4].None?
              && ParseInt(ts[1].value).Some? && ParseInt(ts[2].value).Some? && ParseInt(ts[3].value).Some?
  {
    if ts[0].None? || ts[1].None? || ts[2].None? || ts[3].None? then Returned(ErFailed)
    else
      var ty := ParseInt(ts[1].value);
      var ord := ParseInt(ts[2].value);
      var sto := ParseInt(ts[3].value);
      if ty.None? || ord.None? || sto.None? then Returned(ErFailed)
      else if ts[4].None? then NullDeref
      else
        var sh := SharedFlag(ts[4].value);
        if sh.None? then Returned(ErFailed)
        else if ty.value != a.attrType || ord.value != a.order || sto.value != a.storageOrder
                || sh.value != a.isShared || ts[0].value != a.name
        then Returned(ErFailed)
        else Returned(NoError)
  }

  /** `ldr_compare_attribute_with_meta` as written: a NULL meta or
      attribute fails; otherwise the meta is cut into tokens and compared,
      and a meta whose three integers parse but whose flag token is missing
      reads the flag through NULL. */
  function CompareAttributeWithMetaAsWritten(meta: Option<seq<char>>, attr: Option<Attribute>): (r: Outcome)
    ensures r.NullDeref? <==>
              meta.Some? && attr.Some?
              && var ts := MetaTokens(meta.value);
                 ts[0].Some? && ts[1].Some? && ts[2].Some? && ts[3].Some? && ts[4].None?
                 && ParseInt(ts[1].value).Some? && ParseInt(ts[2].value).Some? && ParseInt(ts[3].value).Some?
  {
    if meta.None? || attr.None? then Returned(ErFailed)
    else CompareTokensAsWritten(MetaTokens(meta.value), attr.value)
  }

  /** The meta string of `m` without its flag token. */
  function FormatMetaWithoutFlag(m: Meta): seq<char> {
    Bracket('[', m.name, ']') + Bracket('(', IntToString(m.attrType), ')')
    + Bracket('(', IntToString(m.order), ')') + Bracket('(', IntToString(m.storageOrder), ')')
  }

  /** Four bracketed tokens are read back, and the fifth is missing. */
  lemma {:induction false} FourTokens(n: seq<char>, t1: seq<char>, t2: seq<char>, t3: seq<char>)
    requires ']' !in n && ')' !in t1 && ')' !in t2 && ')' !in t3
    ensures var s := Bracket('[', n, ']') + Bracket('(', t1, ')') + Bracket('(', t2, ')') + Bracket('(', t3, ')');
            MetaTokens(s) == [Some(n), Some(t1), Some(t2), Some(t3), None]
  {
    var b1, b2, b3 := Bracket('[', n, ']'), Bracket('(', t1, ')'), Bracket('(', t2, ')');
    var b4 := Bracket('(', t3, ')');
    var s := b1 + b2 + b3 + b4;
    assert [] + b1 == b1;
    TokenStep(s, [], n, '[', ']');
    TokenStep(s, b1, t1, '(', ')');
    TokenStep(s, b1 + b2, t2, '(', ')');
    TokenStep(s, b1 + b2 + b3, t3, '(', ')');
    var g1 := GetToken(s, Some(0), '[', ']');
    assert g1 == (Some(|b1|), Some(n));
    var g2 := GetToken(s, g1.0, '(', ')');
    assert g2 == (Some(|b1 + b2|), Some(t1));
    var g3 := GetToken(s, g2.0, '(', ')');
    assert g3 == (Some(|b1 + b2 + b3|), Some(t2));
    var g4 := GetToken(s, g3.0, '(', ')');
    assert g4 == (Some(|s|), Some(t3));
    var g5 := GetToken(s, g4.0, '(', ')');
    assert FindChar(s, |s|, ')') == |s|;
    assert g5.1 == None;
  }

  /** A meta whose three integers are well formed but whose flag token is
      missing makes the code as written read the flag through NULL, for any
      attribute. */
  lemma MissingFlagDereferencesNull(m: Meta, a: Attribute)
    requires Printable(m)
    ensures CompareAttributeWithMetaAsWritten(Some(FormatMetaWithoutFlag(m)), Some(a)) == NullDeref
  {
    IntTokenClean(m.attrType);
    IntTokenClean(m.order);
    IntTokenClean(m.storageOrder);
    var ts := [Some(m.name), Some(IntToString(m.attrType)), Some(IntToString(m.order)),
               Some(IntToString(m.storageOrder)), None];
    FourTokens(m.name, IntToString(m.attrType), IntToString(m.order), IntToString(m.storageOrder));
    assert MetaTokens(FormatMetaWithoutFlag(m)) == ts;
    ParseIntRoundTrip(m.attrType);
    ParseIntRoundTrip(m.order);
    ParseIntRoundTrip(m.storageOrder);
    CompareKnownTokensWithoutFlag(m.name, IntToString(m.attrType), IntToString(m.order), IntToString(m.storageOrder), a);
  }

  /** The corrected comparison on the tokens: NO_ERROR exactly when they
      decode to a meta that agrees with the attribute. */
  function CompareTokens(ts: seq<Option<seq<char>>>, a: Attribute): (r: int)
    requires |ts| == 5
    ensures r == NoError || r == ErFailed
    ensures r == NoError <==> DecodeMeta(ts).Some? && Matches(DecodeMeta(ts).value, a)
  {
    if ts[0].None? || ts[1].None? || ts[2].None? || ts[3].None? || ts[4].None? then ErFailed
    else
      var ty := ParseInt(ts[1].value);
      var ord := ParseInt(ts[2].value);
      var sto := ParseInt(ts[3].value);
      var sh := SharedFlag(ts[4].value);
      if ty.None? || ord.None? || sto.None? || sh.None? then ErFailed
      else if ty.value != a.attrType || ord.value != a.order || sto.value != a.storageOrder
              || sh.value != a.isShared || ts[0].value != a.name
      then ErFailed
      else NoError
  }

  /** `ldr_compare_attribute_with_meta` with the flag token tested for NULL
      like the others: NO_ERROR exactly when the meta parses and agrees
      with the attribute, ER_FAILED otherwise. */
  function CompareAttributeWithMeta(meta: Option<seq<char>>, attr: Option<Attribute>): (r: int)
    ensures r == NoError || r == ErFailed
    ensures r == NoError <==>
              meta.Some? && attr.Some? && ParseMeta(meta.value).Some?
              && Matches(ParseMeta(meta.value).value, attr.value)
  {
    if meta.None? || attr.None? then ErFailed
    else CompareTokens(MetaTokens(meta.value), attr.value)
  }

  /** Wherever the code as written returns, it returns what the corrected
      comparison returns. */
  lemma AsWrittenAgreesWhenItReturns(meta: Option<seq<char>>, attr: Option<Attribute>)
    requires CompareAttributeWithMetaAsWritten(meta, attr).Returned?
    ensures CompareAttributeWithMetaAsWritten(meta, attr).code == CompareAttributeWithMeta(meta, attr)
  {
  }

  /** The meta written for an attribute is accepted for that attribute and
      for no other one. */
  lemma MetaOfAttributeAccepted(a: Attribute, b: Attribute)
    requires Printable(MetaOf(a))
    ensures CompareAttributeWithMeta(Some(FormatMeta(MetaOf(a))), Some(b)) == NoError <==> b == a
  {
    ParseFormatRoundTrip(MetaOf(a));
  }
}
