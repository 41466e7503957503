/** The part of the LDML compiler's `LOCALE_DATA` record that the modelled
    callbacks read and write, and the generic character-data callbacks:
    `handle_data`, `clear_data_buffer` and `end_number_symbol`. */
module LocaleData {
  import opened CText

  /** Direction of a tailoring rule relative to its anchor. */
  datatype RuleDir = TailorAfter | TailorBefore

  /** Strength level of a tailoring rule (`TAILOR_UNDEFINED` .. `TAILOR_QUATERNARY`
      plus the identity level a rule may carry). */
  datatype TailorLevel =
    | TailorUndefined | TailorPrimary | TailorSecondary | TailorTertiary
    | TailorQuaternary | TailorIdentity

  /** What the anchor of the next rule is: the text buffer, or one of the
      logical positions of the reset element. */
  datatype RulePosType =
    | PosBuffer
    | PosFirstVar | PosLastVar
    | PosFirstPriIgn | PosLastPriIgn
    | PosFirstSecIgn | PosLastSecIgn
    | PosFirstTertIgn | PosLastTertIgn
    | PosFirstNonIgn | PosLastNonIgn
    | PosFirstTrail | PosLastTrail

  /** The locale record.  `bufferSize` is `LOC_DATA_BUFF_SIZE`, the capacity
      of the character-data buffer including its terminator; its value lives
      in a header that is not part of this model, so it is a field here.
      `lastRef` is the reference text of the last single-character rule
      (`last_r_buf_p` / `last_r_buf_size`), `None` when the pointer is NULL. */
  datatype Locale = Locale(
    localeName: seq<char>,
    dataBuffer: seq<char>,
    bufferSize: nat,
    numberDecimalSym: char,
    numberGroupSym: char,
    lastAnchor: seq<char>,
    lastRuleDir: RuleDir,
    lastRulePosType: RulePosType,
    lastRuleLevel: TailorLevel,
    lastRef: Option<seq<char>>)
  {
    /** The buffer plus its terminator fits in `bufferSize` bytes. */
    predicate Valid() {
      |dataBuffer| < bufferSize
    }
  }

  /** Status codes the callbacks return to the XML driver. */
  const Ok: int := 0
  const Abort: int := -1

  /** `locale_init_data`: an empty record with the default number symbols. */
  function InitData(name: seq<char>, bufferSize: nat): (ld: Locale)
    requires bufferSize > 0
    ensures ld.Valid() && ld.dataBuffer == []
    ensures ld.numberDecimalSym == ',' && ld.numberGroupSym == '.'
    ensures ld.localeName == name
  {
    Locale(name, [], bufferSize, ',', '.', [], TailorAfter, PosBuffer, TailorUndefined, None)
  }

  /** `handle_data`: appends one chunk of character data, refusing a chunk
      that would leave no room for the terminator. */
  function HandleData(ld: Locale, s: seq<char>): (r: (int, Locale))
    ensures r.0 == Ok || r.0 == Abort
    ensures r.0 == Ok <==> |ld.dataBuffer| + |s| < ld.bufferSize
    ensures r.0 == Ok ==> r.1 == ld.(dataBuffer := ld.dataBuffer + s)
    ensures r.0 == Abort ==> r.1 == ld
    ensures r.0 == Ok ==> r.1.Valid()
  {
    if |ld.dataBuffer| + |s| >= ld.bufferSize then (Abort, ld)
    else (Ok, ld.(dataBuffer := ld.dataBuffer + s))
  }

  /** `clear_data_buffer`. */
  function ClearDataBuffer(ld: Locale): (r: Locale)
    ensures r.dataBuffer == [] && |r.dataBuffer| == 0
    ensures ld.bufferSize > 0 ==> r.Valid()
    ensures r.(dataBuffer := ld.dataBuffer) == ld
  {
    ld.(dataBuffer := [])
  }

  /** Two chunks accepted one after the other leave the same record as their
      concatenation accepted at once, and the pair is accepted exactly when
      the concatenation is. */
  lemma HandleDataConcat(ld: Locale, s: seq<char>, t: seq<char>)
    ensures var (rc1, ld1) := HandleData(ld, s);
            (rc1 == Ok && HandleData(ld1, t).0 == Ok) <==> HandleData(ld, s + t).0 == Ok
    ensures var (rc1, ld1) := HandleData(ld, s);
            rc1 == Ok && HandleData(ld1, t).0 == Ok ==> HandleData(ld1, t).1 == HandleData(ld, s + t).1
  {
    assert ld.dataBuffer + s + t == ld.dataBuffer + (s + t);
  }

  /** After a clear, the buffer holds exactly the chunks accepted since. */
  lemma ClearThenHandle(ld: Locale, s: seq<char>)
    ensures HandleData(ClearDataBuffer(ld), s).0 == Ok <==> |s| < ld.bufferSize
    ensures |s| < ld.bufferSize ==> HandleData(ClearDataBuffer(ld), s).1.dataBuffer == s
  {
    assert [] + s == s;
  }

  /** A number symbol must be a single printable ASCII character. */
  predicate IsNumberSymbol(data: seq<char>) {
    |data| == 1 && ' ' <= data[0] && (data[0] as int) < 0x80
  }

  /** `end_number_symbol`: stores the single buffered character as the
      decimal symbol for element "decimal" and as the group symbol for any
      other element, then clears the buffer; anything else is refused and the
      record is left as it was. */
  function EndNumberSymbol(ld: Locale, elName: seq<char>): (r: (int, Locale))
    ensures r.0 == Ok <==> IsNumberSymbol(ld.dataBuffer)
    ensures r.0 != Ok ==> r.0 == Abort && r.1 == ld
    ensures r.0 == Ok ==> r.1.dataBuffer == []
    ensures r.0 == Ok && elName == "decimal" ==>
              r.1 == ld.(numberDecimalSym := ld.dataBuffer[0], dataBuffer := [])
    ensures r.0 == Ok && elName != "decimal" ==>
              r.1 == ld.(numberGroupSym := ld.dataBuffer[0], dataBuffer := [])
  {
    if IsNumberSymbol(ld.dataBuffer) then
      var c := ld.dataBuffer[0];
      var ld' := if elName == "decimal" then ld.(numberDecimalSym := c) else ld.(numberGroupSym := c);
      (Ok, ClearDataBuffer(ld'))
    else
      (Abort, ld)
  }

  /** Feeding one printable ASCII character into a cleared buffer and closing
      a "decimal" element sets exactly the decimal symbol to it. */
  lemma DecimalSymbolRoundTrip(ld: Locale, c: char)
    requires ld.bufferSize > 1
    requires ' ' <= c && (c as int) < 0x80
    ensures var (rc1, ld1) := HandleData(ClearDataBuffer(ld), [c]);
            rc1 == Ok &&
            EndNumberSymbol(ld1, "decimal") == (Ok, ld.(numberDecimalSym := c, dataBuffer := []))
  {
  }

  /** Two characters of data are always refused as a number symbol, whatever
      the element. */
  lemma TwoCharsRejected(ld: Locale, elName: seq<char>)
    requires |ld.dataBuffer| == 2
    ensures EndNumberSymbol(ld, elName) == (Abort, ld)
  {
  }
}
