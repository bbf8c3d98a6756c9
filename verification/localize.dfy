/**
 Word-by-word localisation of a message: the message is split on single
 spaces, every segment is looked up in the table on its own, and the answers
 are joined again with single spaces. The first segment decides whether the
 message is translatable at all: when its localised message is empty (no unit
 for it, or a unit whose message is empty) the message is returned as it was.
 Later segments with no unit silently become empty segments.

 `Localize` returns localised messages and `Phoneticize` phonetic spellings;
 the gate on the first segment uses the localised message in both.
 */
module Localization {
  import opened Text
  import opened Locales

  const Space: char := ' '

  /** The selected field of each token, in order. */
  function Translate(tokens: seq<string>, l: Locale, f: Field): (ts: seq<string>)
    ensures |ts| == |tokens|
    ensures forall i | 0 <= i < |tokens| :: ts[i] == Lookup(l, tokens[i], f)
    decreases |tokens|
  {
    if |tokens| == 0 then []
    else [Lookup(l, tokens[0], f)] + Translate(tokens[1..], l, f)
  }

  /** The first space-separated segment of `message` has a non-empty localised message. */
  predicate Translatable(message: string, l: Locale)
  {
    GetMessageStr(l, Split(message, Space)[0]) != ""
  }

  /** The algorithm shared by `Localize` and `Phoneticize`, returning field `f`. */
  function Transform(message: string, l: Locale, f: Field): (r: string)
    ensures !Translatable(message, l) ==> r == message
    ensures Translatable(message, l) ==> Lookup(l, Split(message, Space)[0], f) <= r
  {
    var tokens := Split(message, Space);
    if GetMessageStr(l, tokens[0]) != "" then Join(Translate(tokens, l, f), Space)
    else message
  }

  /** The message with every word replaced by its localised message. */
  function Localize(message: string, l: Locale): (r: string)
    ensures !Translatable(message, l) ==> r == message
    ensures Translatable(message, l) ==> GetMessageStr(l, Split(message, Space)[0]) <= r && r != ""
  {
    Transform(message, l, Message)
  }

  /** The message with every word replaced by its phonetic spelling. */
  function Phoneticize(message: string, l: Locale): (r: string)
    ensures !Translatable(message, l) ==> r == message
    ensures Translatable(message, l) ==> GetPhoneticStr(l, Split(message, Space)[0]) <= r
  {
    Transform(message, l, Phonetic)
  }

  /** No segment of `message` looks up, in field `f`, to a string holding a space. */
  predicate LookupsSpaceFree(message: string, l: Locale, f: Field)
  {
    forall t | t in Split(message, Space) :: Space !in Lookup(l, t, f)
  }

  /**
   When the gate passes and no segment's lookup holds a space, the output has
   exactly as many space-separated segments as the input and its i-th segment
   is the lookup of the input's i-th segment.
   */
  lemma TransformSegments(message: string, l: Locale, f: Field)
    requires Translatable(message, l)
    requires LookupsSpaceFree(message, l, f)
    ensures var tokens := Split(message, Space);
            var out := Split(Transform(message, l, f), Space);
            |out| == |tokens| && forall i | 0 <= i < |tokens| :: out[i] == Lookup(l, tokens[i], f)
  {
    var tokens := Split(message, Space);
    var ts := Translate(tokens, l, f);
    forall i | 0 <= i < |ts| ensures Space !in ts[i] {
      assert tokens[i] in tokens;
    }
    SplitJoin(ts, Space);
  }

  lemma LocalizeSegments(message: string, l: Locale)
    requires Translatable(message, l)
    requires LookupsSpaceFree(message, l, Message)
    ensures var tokens := Split(message, Space);
            var out := Split(Localize(message, l), Space);
            |out| == |tokens| && forall i | 0 <= i < |tokens| :: out[i] == GetMessageStr(l, tokens[i])
  {
    TransformSegments(message, l, Message);
  }

  lemma PhoneticizeSegments(message: string, l: Locale)
    requires Translatable(message, l)
    requires LookupsSpaceFree(message, l, Phonetic)
    ensures var tokens := Split(message, Space);
            var out := Split(Phoneticize(message, l), Space);
            |out| == |tokens| && forall i | 0 <= i < |tokens| :: out[i] == GetPhoneticStr(l, tokens[i])
  {
    TransformSegments(message, l, Phonetic);
  }

  /**
   Separator count: when the gate passes and no segment's lookup holds a
   space, the output holds exactly as many spaces as the input.
   */
  lemma TransformKeepsSpaces(message: string, l: Locale, f: Field)
    requires Translatable(message, l)
    requires LookupsSpaceFree(message, l, f)
    ensures Occurrences(Transform(message, l, f), Space) == Occurrences(message, Space)
  {
    var tokens := Split(message, Space);
    var ts := Translate(tokens, l, f);
    forall i | 0 <= i < |ts| ensures Space !in ts[i] {
      assert tokens[i] in tokens;
    }
    JoinSeparators(ts, Space);
  }

  /**
   A message written as separator-free words joined by single spaces: when
   the first word passes the gate the answer is the join of the words'
   lookups, in order; otherwise it is the message itself.
   */
  lemma TransformWords(words: seq<string>, l: Locale, f: Field)
    requires |words| > 0
    requires forall i | 0 <= i < |words| :: Space !in words[i]
    ensures GetMessageStr(l, words[0]) != "" ==>
              Transform(Join(words, Space), l, f) == Join(Translate(words, l, f), Space)
    ensures GetMessageStr(l, words[0]) == "" ==>
              Transform(Join(words, Space), l, f) == Join(words, Space)
  {
    SplitJoin(words, Space);
  }

  /**
   A first segment whose last unit has an empty localised message fails the
   gate exactly like a missing unit: both functions return the message as it
   was, whatever that unit's phonetic spelling and wherever it sits in the table.
   */
  lemma EmptyMessageFallsBack(l: Locale, message: string, i: int)
    requires IsLastMatch(l.messages, Split(message, Space)[0], i)
    requires l.messages[i].message == ""
    ensures Localize(message, l) == message && Phoneticize(message, l) == message
  {
  }
}
