/**
 The Spanish table used by the library's own tests, and the answers those
 tests expect, together with concrete cases of the first-segment gate.
 */
module SpanishFixture {
  import opened Text
  import opened Locales
  import opened Localization

  const Hello := LocaleMessage("hello", "hola", "ola")
  const And := LocaleMessage("and", "y", "ee")
  const Goodbye := LocaleMessage("goodbye", "adiós", "adeeos")

  /** The test table, built unit by unit as the tests build it. */
  function Spanish(): (es: Locale)
    ensures es.messages == [Hello, And, Goodbye]
  {
    var es := NewLocale();
    var es := AddMessage(es, Hello);
    var es := AddMessage(es, And);
    AddMessage(es, Goodbye)
  }

  /** Each key of the test table looks up to its own unit's strings. */
  lemma SpanishLookups()
    ensures GetMessageStr(Spanish(), "hello") == "hola" && GetPhoneticStr(Spanish(), "hello") == "ola"
    ensures GetMessageStr(Spanish(), "and") == "y" && GetPhoneticStr(Spanish(), "and") == "ee"
    ensures GetMessageStr(Spanish(), "goodbye") == "adiós" && GetPhoneticStr(Spanish(), "goodbye") == "adeeos"
  {
    var ms := Spanish().messages;
    assert IsLastMatch(ms, "hello", 0);
    assert IsLastMatch(ms, "and", 1);
    assert IsLastMatch(ms, "goodbye", 2);
  }

  /** The single-word tests: each word maps to its own message and phonetic spelling. */
  lemma SpanishWords()
    ensures Localize("hello", Spanish()) == "hola"
    ensures Localize("and", Spanish()) == "y"
    ensures Localize("goodbye", Spanish()) == "adiós"
    ensures Phoneticize("hello", Spanish()) == "ola"
    ensures Phoneticize("and", Spanish()) == "ee"
    ensures Phoneticize("goodbye", Spanish()) == "adeeos"
  {
    SpanishLookups();
    SplitWithoutSeparator("hello", Space);
    SplitWithoutSeparator("and", Space);
    SplitWithoutSeparator("goodbye", Space);
  }

  /** The test message, as its three words joined by spaces. */
  lemma SpanishMessageJoined()
    ensures Join(["hello", "and", "goodbye"], Space) == "hello and goodbye"
  {
    var words := ["hello", "and", "goodbye"];
    assert Join(words[2..], Space) == "goodbye";
    assert Join(words[1..], Space) == "and goodbye";
    assert Join(words, Space) == "hello and goodbye";
  }

  /** Three segments joined: two separators, one between each pair. */
  lemma JoinThree(a: string, b: string, c: string)
    ensures Join([a, b, c], Space) == a + [Space] + b + [Space] + c
  {
    assert [a, b, c][1..] == [b, c];
    assert [b, c][1..] == [c];
    assert Join([b, c], Space) == b + [Space] + c;
  }

  /** The expected answers, as joins of their words. */
  lemma SpanishAnswers()
    ensures Join(["hola", "y", "adiós"], Space) == "hola y adiós"
    ensures Join(["ola", "ee", "adeeos"], Space) == "ola ee adeeos"
    ensures Join(["hello", "xyz", "goodbye"], Space) == "hello xyz goodbye"
    ensures Join(["hola", "", "adiós"], Space) == "hola  adiós"
  {
    JoinThree("hola", "y", "adiós");
    JoinThree("ola", "ee", "adeeos");
    JoinThree("hello", "xyz", "goodbye");
    JoinThree("hola", "", "adiós");
  }

  lemma SpanishMessageTranslations()
    ensures Translate(["hello", "and", "goodbye"], Spanish(), Message) == ["hola", "y", "adiós"]
    ensures Translate(["hello", "and", "goodbye"], Spanish(), Phonetic) == ["ola", "ee", "adeeos"]
  {
    SpanishLookups();
  }

  lemma SpanishMessageByWords(f: Field)
    ensures Transform(Join(["hello", "and", "goodbye"], Space), Spanish(), f)
         == Join(Translate(["hello", "and", "goodbye"], Spanish(), f), Space)
  {
    SpanishLookups();
    TransformWords(["hello", "and", "goodbye"], Spanish(), f);
  }

  /** The whole-message tests. */
  lemma SpanishMessage()
    ensures Localize("hello and goodbye", Spanish()) == "hola y adiós"
    ensures Phoneticize("hello and goodbye", Spanish()) == "ola ee adeeos"
  {
    SpanishMessageJoined();
    SpanishMessageTranslations();
    SpanishMessageByWords(Message);
    SpanishMessageByWords(Phonetic);
    SpanishAnswers();
  }

  /** A first word with no unit sends the message back unchanged, even the empty message. */
  lemma SpanishFallback()
    ensures Localize("unknown", Spanish()) == "unknown"
    ensures Phoneticize("unknown", Spanish()) == "unknown"
    ensures Localize("", Spanish()) == ""
  {
    SplitWithoutSeparator("unknown", Space);
    assert !HasKey(Spanish().messages, "unknown");
    assert !HasKey(Spanish().messages, "");
  }

  /** The word "xyz" has no unit in the test table. */
  lemma NoUnitForXyz()
    ensures GetMessageStr(Spanish(), "xyz") == ""
  {
    var ms := Spanish().messages;
    assert "xyz"[0] != "and"[0];
    assert forall i | 0 <= i < |ms| :: ms[i].locstr != "xyz";
  }

  lemma SpanishLaterUnknownTranslations()
    ensures Translate(["hello", "xyz", "goodbye"], Spanish(), Message) == ["hola", "", "adiós"]
  {
    SpanishLookups();
    NoUnitForXyz();
  }

  lemma SpanishLaterUnknownByWords()
    ensures Transform(Join(["hello", "xyz", "goodbye"], Space), Spanish(), Message)
         == Join(Translate(["hello", "xyz", "goodbye"], Spanish(), Message), Space)
  {
    SpanishLookups();
    TransformWords(["hello", "xyz", "goodbye"], Spanish(), Message);
  }

  /** A later word with no unit becomes an empty segment between two spaces. */
  lemma SpanishLaterUnknown()
    ensures Localize("hello xyz goodbye", Spanish()) == "hola  adiós"
  {
    SpanishLaterUnknownTranslations();
    SpanishLaterUnknownByWords();
    SpanishAnswers();
  }

  /** The gate of `Phoneticize` reads the localised message, not the phonetic spelling. */
  lemma PhoneticGateReadsMessage()
    ensures Phoneticize("hi", Locale([LocaleMessage("hi", "", "ola")])) == "hi"
    ensures Phoneticize("hi", Locale([LocaleMessage("hi", "hola", "")])) == ""
  {
    SplitWithoutSeparator("hi", Space);
    assert IsLastMatch([LocaleMessage("hi", "", "ola")], "hi", 0);
    assert IsLastMatch([LocaleMessage("hi", "hola", "")], "hi", 0);
  }

  /**
   A multi-word unit that no segment looks up, or that a later unit with the
   same key shadows, leaves the segment statement applicable.
   */
  lemma PhraseUnitsElsewhere()
    ensures LookupsSpaceFree("hello", Locale([Hello, LocaleMessage("gm", "buenos días", "")]), Message)
    ensures LookupsSpaceFree("hi", Locale([LocaleMessage("hi", "a b", ""), LocaleMessage("hi", "ab", "")]), Message)
  {
    SplitWithoutSeparator("hello", Space);
    SplitWithoutSeparator("hi", Space);
    assert IsLastMatch([Hello, LocaleMessage("gm", "buenos días", "")], "hello", 0);
    assert IsLastMatch([LocaleMessage("hi", "a b", ""), LocaleMessage("hi", "ab", "")], "hi", 1);
    ScanFindsLastMatch([Hello, LocaleMessage("gm", "buenos días", "")], "hello", Message, "");
    ScanFindsLastMatch([LocaleMessage("hi", "a b", ""), LocaleMessage("hi", "ab", "")], "hi", Message, "");
  }
}
