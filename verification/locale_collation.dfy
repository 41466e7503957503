/** The collation-tailoring callbacks of the LDML compiler: the state kept
    between a `<reset>` element and the rules that follow it
    (`start_collation_reset`, `end_collation_logical_pos`,
    `common_collation_end_rule`), and the growth of the rule arrays
    (`new_collation_rule`, `new_collation_cubrid_rule`). */
module LocaleCollation {
  import opened CText
  import opened LocaleData

  /** One tailoring rule.  `tBuf` is the tailored text, `direction` and
      `rPosType` are filled in when the rule ends. */
  datatype TailorRule = TailorRule(
    level: TailorLevel,
    direction: RuleDir,
    rPosType: RulePosType,
    multipleChars: bool,
    tBuf: seq<char>)

  /** `start_collation_reset`: forgets the previous anchor, and reads the
      optional `before` attribute into a pending level and the BEFORE
      direction; on success it also forgets the previous reference.  An
      unknown `before` value aborts after the anchor, direction, position
      and level have been reset, but before the reference is cleared, so
      the reference is kept. */
  function StartCollationReset(ld: Locale, before: Option<seq<char>>): (r: (int, Locale))
    ensures r.0 == Ok || r.0 == Abort
    ensures r.0 == Abort <==>
              before.Some? && before.value !in ["primary", "secondary", "tertiary", "quaternary"]
    ensures r.1.lastAnchor == [] && r.1.lastRulePosType == PosBuffer
    ensures r.0 == Ok ==> r.1.lastRef.None?
    ensures r.0 == Ok ==> (r.1.lastRuleDir == TailorBefore <==> before.Some?)
    ensures r.0 == Ok ==> (r.1.lastRuleLevel == TailorUndefined <==> before.None?)
    ensures r.0 == Ok && before == Some("primary") ==> r.1.lastRuleLevel == TailorPrimary
    ensures r.0 == Ok && before == Some("secondary") ==> r.1.lastRuleLevel == TailorSecondary
    ensures r.0 == Ok && before == Some("tertiary") ==> r.1.lastRuleLevel == TailorTertiary
    ensures r.0 == Ok && before == Some("quaternary") ==> r.1.lastRuleLevel == TailorQuaternary
    ensures r.0 == Abort ==> r.1.lastRuleLevel == TailorUndefined && r.1.lastRuleDir == TailorAfter
    ensures r.0 == Abort ==> r.1.lastRef == ld.lastRef
    ensures r.1.(lastAnchor := ld.lastAnchor, lastRuleDir := ld.lastRuleDir,
                 lastRulePosType := ld.lastRulePosType, lastRuleLevel := ld.lastRuleLevel,
                 lastRef := ld.lastRef) == ld
  {
    var ld1 := ld.(lastAnchor := [], lastRuleDir := TailorAfter, lastRulePosType := PosBuffer,
                   lastRuleLevel := TailorUndefined);
    if before.Some? then
      var v := before.value;
      var level :=
        if v == "primary" then Some(TailorPrimary)
        else if v == "secondary" then Some(TailorSecondary)
        else if v == "tertiary" then Some(TailorTertiary)
        else if v == "quaternary" then Some(TailorQuaternary)
        else None;
      if level.None? then (Abort, ld1)
      else (Ok, ld1.(lastRuleLevel := level.value, lastRuleDir := TailorBefore, lastRef := None))
    else
      (Ok, ld1.(lastRef := None))
  }

  /** The element of a reset that names each logical position; the buffer
      position has no element. */
  function PositionName(pt: RulePosType): seq<char>
    requires pt != PosBuffer
  {
    match pt
    case PosFirstVar => "first_variable"
    case PosLastVar => "last_variable"
    case PosFirstPriIgn => "first_primary_ignorable"
    case PosLastPriIgn => "last_primary_ignorable"
    case PosFirstSecIgn => "first_secondary_ignorable"
    case PosLastSecIgn => "last_secondary_ignorable"
    case PosFirstTertIgn => "first_tertiary_ignorable"
    case PosLastTertIgn => "last_tertiary_ignorable"
    case PosFirstNonIgn => "first_non_ignorable"
    case PosLastNonIgn => "last_non_ignorable"
    case PosFirstTrail => "first_trailing"
    case PosLastTrail => "last_trailing"
  }

  /** `end_collation_logical_pos`: records which logical position the reset
      anchors to; an element name that names no position is a parser error
      and leaves the record as it was. */
  function EndCollationLogicalPos(ld: Locale, elName: seq<char>): (r: (int, Locale))
    ensures r.0 == Ok || r.0 == Abort
    ensures r.0 == Abort ==> r.1 == ld
    ensures r.0 == Ok ==>
              r.1 == ld.(lastRulePosType := r.1.lastRulePosType)
              && r.1.lastRulePosType != PosBuffer && PositionName(r.1.lastRulePosType) == elName
  {
    if elName == "first_variable" then (Ok, ld.(lastRulePosType := PosFirstVar))
    else if elName == "last_variable" then (Ok, ld.(lastRulePosType := PosLastVar))
    else if elName == "first_primary_ignorable" then (Ok, ld.(lastRulePosType := PosFirstPriIgn))
    else if elName == "last_primary_ignorable" then (Ok, ld.(lastRulePosType := PosLastPriIgn))
    else if elName == "first_secondary_ignorable" then (Ok, ld.(lastRulePosType := PosFirstSecIgn))
    else if elName == "last_secondary_ignorable" then (Ok, ld.(lastRulePosType := PosLastSecIgn))
    else if elName == "first_tertiary_ignorable" then (Ok, ld.(lastRulePosType := PosFirstTertIgn))
    else if elName == "last_tertiary_ignorable" then (Ok, ld.(lastRulePosType := PosLastTertIgn))
    else if elName == "first_non_ignorable" then (Ok, ld.(lastRulePosType := PosFirstNonIgn))
    else if elName == "last_non_ignorable" then (Ok, ld.(lastRulePosType := PosLastNonIgn))
    else if elName == "first_trailing" then (Ok, ld.(lastRulePosType := PosFirstTrail))
    else if elName == "last_trailing" then (Ok, ld.(lastRulePosType := PosLastTrail))
    else (Abort, ld)
  }

  /** Every logical position is reachable: its own element selects it.
      Together with the contract above, an element is accepted exactly when
      it names a logical position, and different elements select different
      positions. */
  lemma LogicalPosRoundTrip(ld: Locale, pt: RulePosType)
    requires pt != PosBuffer
    ensures EndCollationLogicalPos(ld, PositionName(pt)) == (Ok, ld.(lastRulePosType := pt))
  {
  }

  /** `common_collation_end_rule`: a pending reset level must equal the level
      of the first rule after the reset and is then cleared; the rule takes
      the current direction and position type; a single-character rule becomes
      the new anchor and reference; the direction goes back to AFTER. */
  function CommonCollationEndRule(ld: Locale, rule: TailorRule): (r: (int, Locale, TailorRule))
    ensures r.0 == Ok || r.0 == Abort
    ensures r.0 == Abort <==> ld.lastRuleLevel != TailorUndefined && ld.lastRuleLevel != rule.level
    ensures r.0 == Abort ==> r.1 == ld && r.2 == rule
    ensures r.0 == Ok ==>
              r.1.lastRuleLevel == TailorUndefined && r.1.lastRuleDir == TailorAfter
              && r.2 == rule.(direction := ld.lastRuleDir, rPosType := ld.lastRulePosType)
    ensures r.0 == Ok && !rule.multipleChars ==>
              r.1.lastRulePosType == PosBuffer && r.1.lastAnchor == rule.tBuf && r.1.lastRef == Some(rule.tBuf)
    ensures r.0 == Ok && rule.multipleChars ==>
              r.1.lastRulePosType == ld.lastRulePosType && r.1.lastAnchor == ld.lastAnchor
              && r.1.lastRef == ld.lastRef
    ensures r.1.(lastRuleLevel := ld.lastRuleLevel, lastRuleDir := ld.lastRuleDir,
                 lastRulePosType := ld.lastRulePosType, lastAnchor := ld.lastAnchor,
                 lastRef := ld.lastRef) == ld
  {
    if ld.lastRuleLevel != TailorUndefined && ld.lastRuleLevel != rule.level then
      (Abort, ld, rule)
    else
      var ld1 := ld.(lastRuleLevel := TailorUndefined);
      var rule1 := rule.(direction := ld1.lastRuleDir, rPosType := ld1.lastRulePosType);
      var ld2 :=
        if !rule.multipleChars then
          ld1.(lastRulePosType := PosBuffer, lastRef := Some(rule.tBuf), lastAnchor := rule.tBuf)
        else ld1;
      (Ok, ld2.(lastRuleDir := TailorAfter), rule1)
  }

  /** BEFORE applies only to the first rule after `<reset before="...">`: a
      second rule of any level is accepted and placed AFTER its predecessor. */
  lemma BeforeOnlyFirstRule(ld: Locale, level: seq<char>, r1: TailorRule, r2: TailorRule)
    requires level in ["primary", "secondary", "tertiary", "quaternary"]
    requires StartCollationReset(ld, Some(level)).1.lastRuleLevel == r1.level
    ensures var (rc0, ld0) := StartCollationReset(ld, Some(level));
            var (rc1, ld1, out1) := CommonCollationEndRule(ld0, r1);
            var (rc2, ld2, out2) := CommonCollationEndRule(ld1, r2);
            rc0 == Ok && rc1 == Ok && rc2 == Ok
            && out1.direction == TailorBefore && out2.direction == TailorAfter
  {
  }

  /** The first rule after `<reset before="primary">` must itself be
      primary. */
  lemma ResetLevelMismatch(ld: Locale, r1: TailorRule)
    requires r1.level != TailorPrimary
    ensures var (_, ld0) := StartCollationReset(ld, Some("primary"));
            CommonCollationEndRule(ld0, r1).0 == Abort
  {
  }

  /** A rule array of the tailoring: rules in use, the capacity the code
      believes it has (`max_rules` / `cub_max_rules`) and the number of
      elements actually allocated by the last `realloc`. */
  datatype RuleArray = RuleArray(count: nat, max: nat, alloced: nat) {
    /** The believed capacity is the allocated one and has room for the
        rules in use. */
    predicate Valid() {
      count <= max && alloced == max
    }
  }

  /** The two rule arrays of one collation's tailoring. */
  datatype Tailoring = Tailoring(rules: RuleArray, cubRules: RuleArray)

  /** A tailoring with no rules and nothing allocated. */
  const EmptyTailoring: Tailoring := Tailoring(RuleArray(0, 0, 0), RuleArray(0, 0, 0))

  /** `new_collation_rule`: makes room for one more tailoring rule, growing
      the array by `grow` elements (`LOC_DATA_TAILOR_RULES_COUNT_GROW`, a
      header constant not part of this model) when it is nearly full, and
      returns the slot the new rule will occupy. */
  function NewCollationRule(t: Tailoring, grow: nat): (r: (Tailoring, nat))
    requires t.rules.Valid() && grow > 0
    ensures r.1 == t.rules.count && r.1 < r.0.rules.alloced
    ensures r.0.rules.Valid() && r.0.rules.count == t.rules.count
    ensures r.0.cubRules == t.cubRules
    ensures r.0.rules.max == if t.rules.count + 1 >= t.rules.max then t.rules.max + grow else t.rules.max
  {
    var a := t.rules;
    if a.count + 1 >= a.max then
      (t.(rules := a.(alloced := a.max + grow, max := a.max + grow)), a.count)
    else (t, a.count)
  }

  /** Adding a rule: the slot is filled and the rule count grows. */
  function AddCollationRule(t: Tailoring, grow: nat): (r: Tailoring)
    requires t.rules.Valid() && grow > 0
    ensures r.rules.Valid() && r.rules.count == t.rules.count + 1
  {
    var (t1, slot) := NewCollationRule(t, grow);
    t1.(rules := t1.rules.(count := slot + 1))
  }

  /** `new_collation_cubrid_rule` as written: the `realloc` is sized from
      `max_rules`, the capacity of the other array, while `cub_max_rules`
      is the one increased. */
  function NewCollationCubridRuleAsWritten(t: Tailoring, cubGrow: nat): (r: (Tailoring, nat))
    ensures r.1 == t.cubRules.count && r.0.rules == t.rules && r.0.cubRules.count == t.cubRules.count
    ensures t.cubRules.count + 1 >= t.cubRules.max ==>
              r.0.cubRules.alloced == t.rules.max + cubGrow && r.0.cubRules.max == t.cubRules.max + cubGrow
    ensures t.cubRules.count + 1 < t.cubRules.max ==> r.0 == t
  {
    var a := t.cubRules;
    if a.count + 1 >= a.max then
      (t.(cubRules := a.(alloced := t.rules.max + cubGrow, max := a.max + cubGrow)), a.count)
    else (t, a.count)
  }

  /** Adds `k` CUBRID rules with the code as written; the flag tells whether
      any of them was written outside the allocated array. */
  function AddCubridRulesAsWritten(t: Tailoring, cubGrow: nat, k: nat): (r: (Tailoring, bool))
    ensures r.0.rules == t.rules
  {
    if k == 0 then (t, false)
    else
      var (t1, overflow) := AddCubridRulesAsWritten(t, cubGrow, k - 1);
      var (t2, slot) := NewCollationCubridRuleAsWritten(t1, cubGrow);
      (t2.(cubRules := t2.cubRules.(count := slot + 1)), overflow || slot >= t2.cubRules.alloced)
  }

  /** In a collation with only CUBRID rules, the first `k <= grow` rules fit. */
  lemma {:induction false} CubridRulesPrefix(cubGrow: nat, k: nat)
    requires cubGrow >= 2 && 1 <= k <= cubGrow
    ensures AddCubridRulesAsWritten(EmptyTailoring, cubGrow, k) ==
              (Tailoring(RuleArray(0, 0, 0),
                         RuleArray(k, if k < cubGrow then cubGrow else 2 * cubGrow, cubGrow)), false)
    decreases k
  {
    if k > 1 {
      CubridRulesPrefix(cubGrow, k - 1);
    }
  }

  /** The mismatch made concrete: with no ordinary tailoring rules, rule
      number `grow + 1` is written at index `grow` of an array of `grow`
      elements. */
  lemma CubridRuleOverflow(cubGrow: nat)
    requires cubGrow >= 2
    ensures AddCubridRulesAsWritten(EmptyTailoring, cubGrow, cubGrow + 1).1
  {
    CubridRulesPrefix(cubGrow, cubGrow);
  }

  /** `new_collation_cubrid_rule` with the `realloc` sized from
      `cub_max_rules`, the capacity it then records. */
  function NewCollationCubridRule(t: Tailoring, cubGrow: nat): (r: (Tailoring, nat))
    requires t.cubRules.Valid() && cubGrow > 0
    ensures r.1 == t.cubRules.count && r.1 < r.0.cubRules.alloced
    ensures r.0.cubRules.Valid() && r.0.cubRules.count == t.cubRules.count
    ensures r.0.rules == t.rules
    ensures r.0.cubRules.max ==
              if t.cubRules.count + 1 >= t.cubRules.max then t.cubRules.max + cubGrow else t.cubRules.max
  {
    var a := t.cubRules;
    if a.count + 1 >= a.max then
      (t.(cubRules := a.(alloced := a.max + cubGrow, max := a.max + cubGrow)), a.count)
    else (t, a.count)
  }

  /** Adds `k` CUBRID rules with the corrected growth. */
  function AddCubridRules(t: Tailoring, cubGrow: nat, k: nat): (r: (Tailoring, bool))
    requires t.cubRules.Valid() && cubGrow > 0
    ensures r.0.cubRules.Valid() && r.0.cubRules.count == t.cubRules.count + k
    ensures !r.1
    decreases k
  {
    if k == 0 then (t, false)
    else
      var (t1, overflow) := AddCubridRules(t, cubGrow, k - 1);
      var (t2, slot) := NewCollationCubridRule(t1, cubGrow);
      (t2.(cubRules := t2.cubRules.(count := slot + 1)), overflow || slot >= t2.cubRules.alloced)
  }
}
