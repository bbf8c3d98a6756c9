/**
 The translation table: `LocaleMessage` is one unit of localisation (an
 identifying string, its localised message and an optional phonetic
 spelling, empty when not provided); `Locale` is the ordered list of such
 units in insertion order. Keys are not unique: a lookup scans the whole
 list forwards and every matching unit overwrites the answer, so the last
 unit with an equal key wins, and a key with no unit answers `""`.
 */
module Locales {

  datatype LocaleMessage = LocaleMessage(locstr: string, message: string, phonetic: string)

  /** Which of a unit's two localised strings a lookup returns. */
  datatype Field = Message | Phonetic

  function Select(m: LocaleMessage, f: Field): string
  {
    match f
    case Message => m.message
    case Phonetic => m.phonetic
  }

  datatype Locale = Locale(messages: seq<LocaleMessage>)

  /** Some unit of `ms` is keyed by `key`. */
  predicate HasKey(ms: seq<LocaleMessage>, key: string)
  {
    exists i | 0 <= i < |ms| :: ms[i].locstr == key
  }

  /** `ms[i]` is keyed by `key` and no later unit is. */
  predicate IsLastMatch(ms: seq<LocaleMessage>, key: string, i: int)
  {
    && 0 <= i < |ms|
    && ms[i].locstr == key
    && forall j | i < j < |ms| :: ms[j].locstr != key
  }

  /** The table with no units. */
  function NewLocale(): (l: Locale)
    ensures |l.messages| == 0
    ensures forall key, f :: Lookup(l, key, f) == ""
  {
    Locale([])
  }

  /** `l` with `m` appended after every unit already in it. */
  function AddMessage(l: Locale, m: LocaleMessage): (r: Locale)
    ensures |r.messages| == |l.messages| + 1
    ensures r.messages[..|l.messages|] == l.messages
    ensures r.messages[|l.messages|] == m
  {
    Locale(l.messages + [m])
  }

  /**
   The forward scan of `ms`: `acc` is the answer so far, replaced by the
   selected field of every unit whose key equals `key`.
   */
  function Scan(ms: seq<LocaleMessage>, key: string, f: Field, acc: string): string
    decreases |ms|
  {
    if |ms| == 0 then acc
    else Scan(ms[1..], key, f, if ms[0].locstr == key then Select(ms[0], f) else acc)
  }

  /**
   The forward scan answers the field of the last matching unit, and keeps
   its starting value when no unit matches.
   */
  lemma {:induction false} ScanFindsLastMatch(ms: seq<LocaleMessage>, key: string, f: Field, acc: string)
    ensures !HasKey(ms, key) ==> Scan(ms, key, f, acc) == acc
    ensures forall i | IsLastMatch(ms, key, i) :: Scan(ms, key, f, acc) == Select(ms[i], f)
    decreases |ms|
  {
    if |ms| > 0 {
      var acc' := if ms[0].locstr == key then Select(ms[0], f) else acc;
      ScanFindsLastMatch(ms[1..], key, f, acc');
      assert forall i | IsLastMatch(ms, key, i) && i > 0 :: IsLastMatch(ms[1..], key, i - 1);
      assert !HasKey(ms, key) ==> !HasKey(ms[1..], key) by {
        if HasKey(ms[1..], key) {
          var j :| 0 <= j < |ms[1..]| && ms[1..][j].locstr == key;
          assert ms[j + 1].locstr == key;
        }
      }
    }
  }

  /** Both lookups of the source: the forward scan of the whole table, starting from `""`. */
  function Lookup(l: Locale, key: string, f: Field): string
  {
    Scan(l.messages, key, f, "")
  }

  /** Localised message of `key`: that of the last unit keyed by it, else `""`. */
  function GetMessageStr(l: Locale, key: string): (r: string)
    ensures !HasKey(l.messages, key) ==> r == ""
    ensures forall i | IsLastMatch(l.messages, key, i) :: r == l.messages[i].message
  {
    ScanFindsLastMatch(l.messages, key, Message, "");
    Lookup(l, key, Message)
  }

  /** Phonetic spelling of `key`: that of the last unit keyed by it, else `""`. */
  function GetPhoneticStr(l: Locale, key: string): (r: string)
    ensures !HasKey(l.messages, key) ==> r == ""
    ensures forall i | IsLastMatch(l.messages, key, i) :: r == l.messages[i].phonetic
  {
    ScanFindsLastMatch(l.messages, key, Phonetic, "");
    Lookup(l, key, Phonetic)
  }

  /** Whenever some unit is keyed by `key`, exactly one of them is the last. */
  lemma {:induction false} LastMatchExists(ms: seq<LocaleMessage>, key: string)
    requires HasKey(ms, key)
    ensures exists i :: IsLastMatch(ms, key, i)
    ensures forall i, j | IsLastMatch(ms, key, i) && IsLastMatch(ms, key, j) :: i == j
    decreases |ms|
  {
    var n := |ms| - 1;
    if ms[n].locstr == key {
      assert IsLastMatch(ms, key, n);
    } else {
      var p := ms[..n];
      var k :| 0 <= k < |ms| && ms[k].locstr == key;
      assert p[k].locstr == key;
      LastMatchExists(p, key);
      var i :| IsLastMatch(p, key, i);
      assert IsLastMatch(ms, key, i);
    }
  }

  /** Every answer of a lookup is `""` or the selected field of a unit with that key. */
  lemma LookupSource(l: Locale, key: string, f: Field)
    ensures Lookup(l, key, f) == ""
         || exists i | 0 <= i < |l.messages| ::
              l.messages[i].locstr == key && Lookup(l, key, f) == Select(l.messages[i], f)
  {
    ScanFindsLastMatch(l.messages, key, f, "");
    if HasKey(l.messages, key) {
      LastMatchExists(l.messages, key);
    }
  }

  /** Scanning one more unit at the end: it overwrites the answer exactly when its key matches. */
  lemma {:induction false} ScanAppend(ms: seq<LocaleMessage>, m: LocaleMessage, key: string, f: Field, acc: string)
    ensures Scan(ms + [m], key, f, acc)
         == if m.locstr == key then Select(m, f) else Scan(ms, key, f, acc)
    decreases |ms|
  {
    if |ms| == 0 {
      assert ms + [m] == [m];
      assert [m][1..] == [];
    } else {
      var acc' := if ms[0].locstr == key then Select(ms[0], f) else acc;
      assert (ms + [m])[1..] == ms[1..] + [m];
      ScanAppend(ms[1..], m, key, f, acc');
    }
  }

  /**
   After appending `m`, a lookup of `m`'s own key answers `m`'s field, and a
   lookup of any other key answers what it answered before.
   */
  lemma AddThenLookup(l: Locale, m: LocaleMessage, key: string, f: Field)
    ensures Lookup(AddMessage(l, m), key, f)
         == if m.locstr == key then Select(m, f) else Lookup(l, key, f)
  {
    ScanAppend(l.messages, m, key, f, "");
  }

  /** Of two units with the same key, the one added later decides the lookup. */
  lemma LastWins(l: Locale, key: string, m1: string, p1: string, m2: string, p2: string, f: Field)
    ensures var l' := AddMessage(AddMessage(l, LocaleMessage(key, m1, p1)), LocaleMessage(key, m2, p2));
            Lookup(l', key, f) == Select(LocaleMessage(key, m2, p2), f)
  {
    AddThenLookup(AddMessage(l, LocaleMessage(key, m1, p1)), LocaleMessage(key, m2, p2), key, f);
  }

  /** Adding a unit under a different key leaves the lookup of `key` unchanged. */
  lemma AddOtherKeyUnchanged(l: Locale, m: LocaleMessage, key: string, f: Field)
    requires m.locstr != key
    ensures Lookup(AddMessage(l, m), key, f) == Lookup(l, key, f)
  {
    AddThenLookup(l, m, key, f);
  }

  /** A unit added to an empty table is found by its key. */
  lemma SingleUnitFound(m: LocaleMessage, f: Field)
    ensures Lookup(AddMessage(NewLocale(), m), m.locstr, f) == Select(m, f)
  {
    AddThenLookup(NewLocale(), m, m.locstr, f);
  }
}
