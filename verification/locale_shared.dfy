/** The shared-data registry of the locale generator
    (`locale_check_and_set_shared_data`): collations, alphabets and
    normalisation data used by several locales are recorded once by
    (type, key) so that they are emitted only once. */
module LocaleShared {

  datatype SharedType = SharedCollation | SharedAlphabet | SharedNormalization

  /** One registered item; `key` is what the fixed-size `lsd_key` array holds. */
  datatype Entry = Entry(kind: SharedType, key: seq<char>)

  /** The registry: the first `count_shared_data` entries and the number of
      slots allocated for them. */
  datatype Registry = Registry(entries: seq<Entry>, alloced: nat) {
    predicate Valid() {
      |entries| <= alloced
    }
  }

  /** Slots added each time the registry array grows. */
  const SharedDataIncrSize: nat := 32

  /** The empty registry the generator starts with. */
  const Empty: Registry := Registry([], 0)

  /** What `strncpy` into a `COLL_NAME_SIZE` array followed by a forced
      terminator keeps of a key: at most `nameSize - 1` characters.
      `COLL_NAME_SIZE` is defined in a header that is not part of this model,
      so it is a parameter. */
  function Truncate(key: seq<char>, nameSize: nat): (k: seq<char>)
    requires nameSize > 0
    ensures |k| <= nameSize - 1
    ensures |key| < nameSize ==> k == key
    ensures k == key[..|k|]
  {
    if |key| < nameSize then key else key[..nameSize - 1]
  }

  /** Position of the first entry matching `(kind, key)`, if any. */
  function Find(entries: seq<Entry>, kind: SharedType, key: seq<char>): (r: int)
    ensures -1 <= r < |entries|
    ensures r == -1 <==> Entry(kind, key) !in entries
    ensures r >= 0 ==> entries[r] == Entry(kind, key)
  {
    if |entries| == 0 then -1
    else if entries[|entries| - 1] == Entry(kind, key) then
      var r := Find(entries[..|entries| - 1], kind, key);
      if r >= 0 then r else |entries| - 1
    else
      assert entries == entries[..|entries| - 1] + [entries[|entries| - 1]];
      Find(entries[..|entries| - 1], kind, key)
  }

  /** Grows the array by `SharedDataIncrSize` slots when it is full. */
  function Reserve(reg: Registry): (r: Registry)
    requires reg.Valid()
    ensures r.entries == reg.entries && |r.entries| < r.alloced
    ensures r.alloced == if |reg.entries| < reg.alloced then reg.alloced else reg.alloced + SharedDataIncrSize
  {
    if reg.alloced <= |reg.entries| then reg.(alloced := reg.alloced + SharedDataIncrSize) else reg
  }

  /** `locale_check_and_set_shared_data` as written: the key is searched for
      in full but stored truncated to `nameSize - 1` characters. */
  function CheckAndSetAsWritten(reg: Registry, kind: SharedType, key: seq<char>, nameSize: nat): (r: (bool, Registry))
    requires reg.Valid() && nameSize > 0
    ensures r.1.Valid()
    ensures r.0 <==> Entry(kind, key) in reg.entries
    ensures r.0 ==> r.1 == reg
    ensures !r.0 ==> r.1.entries == reg.entries + [Entry(kind, Truncate(key, nameSize))]
  {
    if Find(reg.entries, kind, key) >= 0 then (true, reg)
    else
      var g := Reserve(reg);
      (false, g.(entries := g.entries + [Entry(kind, Truncate(key, nameSize))]))
  }

  /** A key of `nameSize` characters is registered under a shorter name and
      is never found again: every call appends another copy. */
  lemma LongKeyNeverShared(kind: SharedType, nameSize: nat)
    requires nameSize > 0
    ensures var key := seq(nameSize, _ => 'x');
            var (shared1, reg1) := CheckAndSetAsWritten(Empty, kind, key, nameSize);
            var (shared2, reg2) := CheckAndSetAsWritten(reg1, kind, key, nameSize);
            !shared1 && !shared2 && |reg2.entries| == 2
  {
    var key := seq(nameSize, _ => 'x');
    var (shared1, reg1) := CheckAndSetAsWritten(Empty, kind, key, nameSize);
    assert reg1.entries == [Entry(kind, key[..nameSize - 1])];
    assert |key[..nameSize - 1]| != |key|;
    assert Entry(kind, key) !in reg1.entries;
  }

  /** The registry as it should work: the key is looked up in the form in
      which it is stored, so registering is idempotent. */
  function CheckAndSet(reg: Registry, kind: SharedType, key: seq<char>, nameSize: nat): (r: (bool, Registry))
    requires reg.Valid() && nameSize > 0
    ensures r.1.Valid()
    ensures r.0 <==> Entry(kind, Truncate(key, nameSize)) in reg.entries
    ensures r.0 ==> r.1 == reg
    ensures !r.0 ==> r.1.entries == reg.entries + [Entry(kind, Truncate(key, nameSize))]
  {
    var stored := Truncate(key, nameSize);
    if Find(reg.entries, kind, stored) >= 0 then (true, reg)
    else
      var g := Reserve(reg);
      (false, g.(entries := g.entries + [Entry(kind, stored)]))
  }

  /** A second registration of the same pair reports it shared and leaves
      the registry as the first one left it. */
  lemma CheckAndSetIdempotent(reg: Registry, kind: SharedType, key: seq<char>, nameSize: nat)
    requires reg.Valid() && nameSize > 0
    ensures var (_, reg1) := CheckAndSet(reg, kind, key, nameSize);
            CheckAndSet(reg1, kind, key, nameSize) == (true, reg1)
  {
  }

  /** No entry is ever registered twice. */
  predicate Distinct(entries: seq<Entry>) {
    forall i, j :: 0 <= i < j < |entries| ==> entries[i] != entries[j]
  }

  lemma CheckAndSetKeepsDistinct(reg: Registry, kind: SharedType, key: seq<char>, nameSize: nat)
    requires reg.Valid() && nameSize > 0 && Distinct(reg.entries)
    ensures Distinct(CheckAndSet(reg, kind, key, nameSize).1.entries)
  {
  }

  /** For keys that fit the array the two versions agree. */
  lemma ShortKeysAgree(reg: Registry, kind: SharedType, key: seq<char>, nameSize: nat)
    requires reg.Valid() && nameSize > 0 && |key| < nameSize
    ensures CheckAndSet(reg, kind, key, nameSize) == CheckAndSetAsWritten(reg, kind, key, nameSize)
  {
  }
}
