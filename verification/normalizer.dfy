/**
  The text normaliser `clean_text` of audio.py: a regular-expression
  substitution that deletes everything outside ASCII letters and whitespace,
  followed by lower-casing and stripping.

  The flags `re.I | re.A` are handed to `re.sub` in the position of its
  `count` parameter, so the call runs with the default flags and deletes at
  most 258 characters. `CleanText` models the call as written;
  `CleanTextIntended` models the call the code evidently meant, with those
  flags and no limit on the number of deletions.
*/
module Normalizer {
  import opened PyStrings

  /** Python's `re.IGNORECASE` and `re.ASCII` flag bits. */
  const ReIgnoreCase: bv16 := 2
  const ReAscii: bv16 := 256

  /** The value that clean_text passes in the position of `count`. */
  const CountArgument: nat := (ReIgnoreCase | ReAscii) as nat

  /** The characters matched by `[^a-zA-Z\s]`. With `asciiOnly` (the
      `re.ASCII` flag) `\s` is `[ \t\n\r\f\v]`; without it, `\s` is every
      character for which `str.isspace` holds. `re.IGNORECASE` adds nothing to
      a class that already lists both cases, once `re.ASCII` is set. */
  predicate Disallowed(c: char, asciiOnly: bool) {
    !IsAsciiLetter(c) && !(if asciiOnly then IsAsciiSpace(c) else IsSpace(c))
  }

  /** Which characters the two readings of the class remove. Punctuation
      and non-ASCII letters such as the Kelvin sign go under both; the
      no-break space is whitespace to `\s` without `re.ASCII` only. */
  lemma DisallowedExamples()
    ensures Disallowed('!', false) && Disallowed('.', false) && Disallowed('7', false)
    ensures Disallowed('\U{212A}', false) && Disallowed('\U{212A}', true)
    ensures !Disallowed('a', false) && !Disallowed('Z', false) && !Disallowed(' ', false) && !Disallowed('\n', true)
    ensures !Disallowed('\U{A0}', false) && Disallowed('\U{A0}', true)
  {
  }

  /** The disallowed characters of `s`, in order. */
  function Noise(s: string, asciiOnly: bool): string {
    Filter(s, c => Disallowed(c, asciiOnly))
  }

  /** The characters of `s` the pattern does not match, in order. */
  function Kept(s: string, asciiOnly: bool): string {
    Filter(s, c => !Disallowed(c, asciiOnly))
  }

  /** The ASCII letters of `s`, in order. */
  function Letters(s: string): string {
    Filter(s, IsAsciiLetter)
  }

  function Min(a: nat, b: nat): nat {
    if a <= b then a else b
  }

  /** `re.sub(r'[^a-zA-Z\s]', '', s)` limited to `budget` replacements: the
      scan goes left to right and deletes the first `budget` disallowed
      characters. Which characters survive is `RemoveFirstKept` and
      `RemoveFirstNoise`; where they
      sit is `RemoveFirstSplit`. */
  function RemoveFirst(s: string, budget: nat, asciiOnly: bool): (r: string)
    ensures |r| <= |s|
    decreases |s|
  {
    if s == [] then []
    else if budget > 0 && Disallowed(s[0], asciiOnly) then
      RemoveFirst(s[1..], budget - 1, asciiOnly)
    else
      [s[0]] + RemoveFirst(s[1..], budget, asciiOnly)
  }

  /** Everything the pattern does not match survives, in order. */
  lemma {:induction false} RemoveFirstKept(s: string, budget: nat, asciiOnly: bool)
    ensures Kept(RemoveFirst(s, budget, asciiOnly), asciiOnly) == Kept(s, asciiOnly)
    decreases |s|
  {
    if s != [] {
      var b' := if budget > 0 && Disallowed(s[0], asciiOnly) then budget - 1 else budget;
      var rest := RemoveFirst(s[1..], b', asciiOnly);
      RemoveFirstKept(s[1..], b', asciiOnly);
      NoiseCons(s, asciiOnly);
      if !(budget > 0 && Disallowed(s[0], asciiOnly)) {
        assert ([s[0]] + rest)[1..] == rest;
        NoiseCons([s[0]] + rest, asciiOnly);
      }
    }
  }

  /** Of the disallowed characters exactly those after the first `budget`
      survive, in order. */
  lemma {:induction false} RemoveFirstNoise(s: string, budget: nat, asciiOnly: bool)
    ensures Noise(RemoveFirst(s, budget, asciiOnly), asciiOnly) == Noise(s, asciiOnly)[Min(budget, |Noise(s, asciiOnly)|)..]
    decreases |s|
  {
    if s != [] {
      var b' := if budget > 0 && Disallowed(s[0], asciiOnly) then budget - 1 else budget;
      var rest := RemoveFirst(s[1..], b', asciiOnly);
      RemoveFirstNoise(s[1..], b', asciiOnly);
      NoiseCons(s, asciiOnly);
      if !(budget > 0 && Disallowed(s[0], asciiOnly)) {
        assert ([s[0]] + rest)[1..] == rest;
        NoiseCons([s[0]] + rest, asciiOnly);
      }
    }
  }

  lemma NoiseCons(s: string, asciiOnly: bool)
    requires s != []
    ensures Noise(s, asciiOnly) == (if Disallowed(s[0], asciiOnly) then [s[0]] else []) + Noise(s[1..], asciiOnly)
    ensures Kept(s, asciiOnly) == (if Disallowed(s[0], asciiOnly) then [] else [s[0]]) + Kept(s[1..], asciiOnly)
  {
  }

  /** The deletion works in place: cut the input after the prefix `a` that
      holds exactly `budget` disallowed characters; the result is `a` with
      its disallowed characters removed, followed by the untouched rest. */
  lemma {:induction false} RemoveFirstSplit(a: string, b: string, budget: nat, asciiOnly: bool)
    requires |Noise(a, asciiOnly)| == budget
    ensures RemoveFirst(a + b, budget, asciiOnly) == Kept(a, asciiOnly) + b
    decreases |a|
  {
    if a == [] {
      assert a + b == b;
      assert Kept(a, asciiOnly) == [];
      RemoveFirstNothing(b, budget, asciiOnly);
    } else {
      NoiseCons(a, asciiOnly);
      var b' := if Disallowed(a[0], asciiOnly) then budget - 1 else budget;
      RemoveFirstSplit(a[1..], b, b', asciiOnly);
      SplitStep(a, b, budget, asciiOnly);
    }
  }

  /** The inductive step of `RemoveFirstSplit`: one character of the prefix. */
  lemma SplitStep(a: string, b: string, budget: nat, asciiOnly: bool)
    requires a != []
    requires Disallowed(a[0], asciiOnly) ==> (budget > 0 &&
      RemoveFirst(a[1..] + b, budget - 1, asciiOnly) == Kept(a[1..], asciiOnly) + b)
    requires !Disallowed(a[0], asciiOnly) ==>
      RemoveFirst(a[1..] + b, budget, asciiOnly) == Kept(a[1..], asciiOnly) + b
    ensures RemoveFirst(a + b, budget, asciiOnly) == Kept(a, asciiOnly) + b
  {
    var s := a + b;
    var tail := a[1..];
    assert s[1..] == tail + b;
    if Disallowed(a[0], asciiOnly) {
      assert RemoveFirst(s, budget, asciiOnly) == RemoveFirst(tail + b, budget - 1, asciiOnly) by {
        assert s[0] == a[0];
        RemoveFirstStep(s, budget, asciiOnly);
      }
      assert Kept(a, asciiOnly) == Kept(tail, asciiOnly) by {
        NoiseCons(a, asciiOnly);
      }
    } else {
      assert RemoveFirst(s, budget, asciiOnly) == [a[0]] + RemoveFirst(tail + b, budget, asciiOnly) by {
        assert s[0] == a[0];
        RemoveFirstStep(s, budget, asciiOnly);
      }
      assert Kept(a, asciiOnly) == [a[0]] + Kept(tail, asciiOnly) by {
        NoiseCons(a, asciiOnly);
      }
      assert [a[0]] + (Kept(tail, asciiOnly) + b) == ([a[0]] + Kept(tail, asciiOnly)) + b;
    }
  }

  /** One step of the scan behind `RemoveFirst`. */
  lemma RemoveFirstStep(s: string, budget: nat, asciiOnly: bool)
    requires s != []
    ensures budget > 0 && Disallowed(s[0], asciiOnly) ==>
      RemoveFirst(s, budget, asciiOnly) == RemoveFirst(s[1..], budget - 1, asciiOnly)
    ensures !(budget > 0 && Disallowed(s[0], asciiOnly)) ==>
      RemoveFirst(s, budget, asciiOnly) == [s[0]] + RemoveFirst(s[1..], budget, asciiOnly)
  {
  }

  /** Each removal takes away one character, so the result is shorter than
      the input by the number of characters removed. */
  lemma {:induction false} RemoveFirstLength(s: string, budget: nat, asciiOnly: bool)
    ensures |RemoveFirst(s, budget, asciiOnly)| == |s| - Min(budget, |Noise(s, asciiOnly)|)
    decreases |s|
  {
    if s != [] {
      var b' := if budget > 0 && Disallowed(s[0], asciiOnly) then budget - 1 else budget;
      RemoveFirstLength(s[1..], b', asciiOnly);
    }
  }

  /** Removal never touches an ASCII letter. */
  lemma {:induction false} RemoveFirstLetters(s: string, budget: nat, asciiOnly: bool)
    ensures Letters(RemoveFirst(s, budget, asciiOnly)) == Letters(s)
    decreases |s|
  {
    if s != [] {
      var b' := if budget > 0 && Disallowed(s[0], asciiOnly) then budget - 1 else budget;
      RemoveFirstLetters(s[1..], b', asciiOnly);
      var rest := RemoveFirst(s[1..], b', asciiOnly);
      assert ([s[0]] + rest)[1..] == rest;
    }
  }

  /** A budget that covers every disallowed character removes all of them. */
  lemma {:induction false} RemoveFirstAll(s: string, budget: nat, asciiOnly: bool)
    requires |Noise(s, asciiOnly)| <= budget
    ensures RemoveFirst(s, budget, asciiOnly) == Kept(s, asciiOnly)
    decreases |s|
  {
    if s != [] {
      var b' := if Disallowed(s[0], asciiOnly) then budget - 1 else budget;
      RemoveFirstAll(s[1..], b', asciiOnly);
    }
  }

  /** With nothing to remove, or no budget to remove it, the string is
      returned as it is. */
  lemma {:induction false} RemoveFirstNothing(s: string, budget: nat, asciiOnly: bool)
    requires budget == 0 || Noise(s, asciiOnly) == []
    ensures RemoveFirst(s, budget, asciiOnly) == s
    decreases |s|
  {
    if s != [] {
      assert Noise(s, asciiOnly) == (if Disallowed(s[0], asciiOnly) then [s[0]] else []) + Noise(s[1..], asciiOnly);
      RemoveFirstNothing(s[1..], budget, asciiOnly);
    }
  }

  /** `re.sub(r'[^a-zA-Z\s]', '', s, count)`; as in Python, a count of 0
      means no limit. */
  function ReSub(s: string, count: nat, asciiOnly: bool): (r: string)
    ensures count == 0 ==> r == Kept(s, asciiOnly)
    ensures count > 0 ==> Kept(r, asciiOnly) == Kept(s, asciiOnly)
    ensures count > 0 ==> Noise(r, asciiOnly) == Noise(s, asciiOnly)[Min(count, |Noise(s, asciiOnly)|)..]
  {
    if count == 0 then
      RemoveFirstAll(s, |s|, asciiOnly);
      RemoveFirst(s, |s|, asciiOnly)
    else
      RemoveFirstKept(s, count, asciiOnly);
      RemoveFirstNoise(s, count, asciiOnly);
      RemoveFirst(s, count, asciiOnly)
  }

  /** With a positive count the substitution works in place: the prefix
      holding the first `count` disallowed characters loses them, the rest of
      the string is untouched. */
  lemma ReSubSplit(a: string, b: string, count: nat, asciiOnly: bool)
    requires count > 0 && |Noise(a, asciiOnly)| == count
    ensures ReSub(a + b, count, asciiOnly) == Kept(a, asciiOnly) + b
  {
    RemoveFirstSplit(a, b, count, asciiOnly);
  }

  /** clean_text as written: at most 258 disallowed characters removed, then
      ASCII lower-casing, then stripping. The result never starts or ends
      with whitespace and is never longer than the input. */
  function CleanText(text: string): (r: string)
    ensures r == [] || (!IsSpace(r[0]) && !IsSpace(r[|r| - 1]))
    ensures |r| <= |text|
  {
    Strip(Lower(ReSub(text, CountArgument, false)))
  }

  /** clean_text as evidently intended: every character outside
      `[a-zA-Z \t\n\r\f\v]` removed, then lower-casing, then stripping. */
  function CleanTextIntended(text: string): (r: string)
    ensures r == [] || (!IsSpace(r[0]) && !IsSpace(r[|r| - 1]))
    ensures |r| <= |text|
  {
    Strip(Lower(ReSub(text, 0, true)))
  }

  /** Every character is a lower-case ASCII letter or whitespace. */
  predicate OnlyLowerAndSpace(s: string) {
    forall i :: 0 <= i < |s| ==> IsAsciiLower(s[i]) || IsSpace(s[i])
  }

  lemma CountArgumentIs258()
    ensures CountArgument == 258
  {
  }

  // ---------------------------------------------------------------------
  // How lower() and strip() act on the noise and on the letters
  // ---------------------------------------------------------------------

  lemma {:induction false} LowerKeepsNoise(s: string, asciiOnly: bool)
    ensures Noise(Lower(s), asciiOnly) == Noise(s, asciiOnly)
    decreases |s|
  {
    if s != [] {
      LowerCons(s);
      LowerKeepsNoise(s[1..], asciiOnly);
    }
  }

  lemma {:induction false} LowerLetters(s: string)
    ensures Letters(Lower(s)) == Lower(Letters(s))
    decreases |s|
  {
    if s != [] {
      LowerCons(s);
      LowerLetters(s[1..]);
      if IsAsciiLetter(s[0]) {
        LowerCons(Letters(s));
      }
    }
  }

  lemma StripKeepsNoise(s: string)
    ensures Noise(Strip(s), false) == Noise(s, false)
  {
    StripFilter(s, c => Disallowed(c, false));
  }

  lemma StripKeepsLetters(s: string)
    ensures Letters(Strip(s)) == Letters(s)
  {
    StripFilter(s, IsAsciiLetter);
  }

  /** Every character of `Strip(s)` is a character of `s`. */
  lemma StripChars(s: string, p: char -> bool)
    requires forall i :: 0 <= i < |s| ==> p(s[i])
    ensures forall i :: 0 <= i < |Strip(s)| ==> p(Strip(s)[i])
  {
    var pre, post := StripSplit(s);
    forall i | 0 <= i < |Strip(s)| ensures p(Strip(s)[i]) {
      assert Strip(s)[i] == s[|pre| + i];
    }
  }

  // ---------------------------------------------------------------------
  // Properties of clean_text as written
  // ---------------------------------------------------------------------

  /** Exactly the disallowed characters after the 258th survive, in order. */
  lemma CleanTextNoise(text: string)
    ensures Noise(CleanText(text), false) == Noise(text, false)[Min(CountArgument, |Noise(text, false)|)..]
  {
    var removed := ReSub(text, CountArgument, false);
    LowerKeepsNoise(removed, false);
    StripKeepsNoise(Lower(removed));
  }

  /** With at most 258 disallowed characters in the input, the output holds
      only lower-case ASCII letters and whitespace. */
  lemma CleanTextOnlyLettersAndSpace(text: string)
    requires |Noise(text, false)| <= CountArgument
    ensures OnlyLowerAndSpace(CleanText(text))
  {
    var removed := ReSub(text, CountArgument, false);
    var lowered := Lower(removed);
    RemoveFirstAll(text, CountArgument, false);
    assert forall i :: 0 <= i < |removed| ==> !Disallowed(removed[i], false);
    StripChars(lowered, c => IsAsciiLower(c) || IsSpace(c));
  }

  /** With more than 258 disallowed characters, some survive: the output is
      not made of letters and whitespace only. */
  lemma CleanTextKeepsLateNoise(text: string)
    requires |Noise(text, false)| > CountArgument
    ensures exists i :: 0 <= i < |CleanText(text)| && Disallowed(CleanText(text)[i], false)
  {
    var r := CleanText(text);
    CleanTextNoise(text);
    var n := Noise(r, false);
    assert |n| > 0;
    FilterWitness(r, c => Disallowed(c, false));
  }

  /** A character kept by `Filter` comes from the filtered string. */
  lemma {:induction false} FilterWitness(s: string, keep: char -> bool)
    requires Filter(s, keep) != []
    ensures exists i :: 0 <= i < |s| && keep(s[i])
    decreases |s|
  {
    if !keep(s[0]) {
      FilterWitness(s[1..], keep);
      var i :| 0 <= i < |s[1..]| && keep(s[1..][i]);
      assert keep(s[i + 1]);
    }
  }

  /** The ASCII letters of the input appear in the output in their
      original order, lower-cased. */
  lemma CleanTextLetters(text: string)
    ensures Letters(CleanText(text)) == Lower(Letters(text))
  {
    var removed := ReSub(text, CountArgument, false);
    RemoveFirstLetters(text, CountArgument, false);
    LowerLetters(removed);
    StripKeepsLetters(Lower(removed));
  }

  /** A string with nothing to remove, no upper-case letter and no
      whitespace at either end passes through the whole chain unchanged. */
  lemma PipelineFixed(s: string, count: nat, asciiOnly: bool)
    requires Noise(s, asciiOnly) == []
    requires forall i :: 0 <= i < |s| ==> !IsAsciiUpper(s[i])
    requires s == [] || (!IsSpace(s[0]) && !IsSpace(s[|s| - 1]))
    ensures Strip(Lower(ReSub(s, count, asciiOnly))) == s
  {
    assert ReSub(s, count, asciiOnly) == s by {
      RemoveFirstNothing(s, if count == 0 then |s| else count, asciiOnly);
    }
    assert Lower(s) == s by {
      LowerNoUpper(s);
    }
    StripFixed(s);
  }

  /** A string that is already clean is left as it is. */
  lemma CleanTextFixed(s: string)
    requires OnlyLowerAndSpace(s)
    requires s == [] || (!IsSpace(s[0]) && !IsSpace(s[|s| - 1]))
    ensures CleanText(s) == s
  {
    FilterNone(s, c => Disallowed(c, false));
    PipelineFixed(s, CountArgument, false);
  }

  /** clean_text is idempotent exactly when the input has at most 258
      disallowed characters. */
  lemma CleanTextIdempotent(text: string)
    ensures CleanText(CleanText(text)) == CleanText(text) <==> |Noise(text, false)| <= CountArgument
  {
    var once := CleanText(text);
    if |Noise(text, false)| <= CountArgument {
      CleanTextOnlyLettersAndSpace(text);
      CleanTextFixed(once);
    } else {
      CleanTextNoise(text);
      CleanTextNoise(once);
      assert |Noise(CleanText(once), false)| < |Noise(once, false)|;
    }
  }

  // ---------------------------------------------------------------------
  // Properties of clean_text as intended
  // ---------------------------------------------------------------------

  /** For every input the intended version yields only lower-case ASCII
      letters and ASCII whitespace. */
  lemma CleanTextIntendedOnlyLettersAndSpace(text: string)
    ensures forall i :: 0 <= i < |CleanTextIntended(text)| ==>
      IsAsciiLower(CleanTextIntended(text)[i]) || IsAsciiSpace(CleanTextIntended(text)[i])
  {
    var kept := ReSub(text, 0, true);
    assert forall i :: 0 <= i < |kept| ==> !Disallowed(kept[i], true);
    StripChars(Lower(kept), c => IsAsciiLower(c) || IsAsciiSpace(c));
  }

  /** The intended version is idempotent on every input. */
  lemma CleanTextIntendedIdempotent(text: string)
    ensures CleanTextIntended(CleanTextIntended(text)) == CleanTextIntended(text)
  {
    var once := CleanTextIntended(text);
    CleanTextIntendedOnlyLettersAndSpace(text);
    FilterNone(once, c => Disallowed(c, true));
    PipelineFixed(once, 0, true);
  }

  lemma {:induction false} KeptAgree(s: string)
    requires forall i :: 0 <= i < |s| ==> IsSpace(s[i]) ==> IsAsciiSpace(s[i])
    ensures Kept(s, false) == Kept(s, true)
    decreases |s|
  {
    if s != [] {
      KeptAgree(s[1..]);
    }
  }

  /** On inputs with at most 258 disallowed characters and no whitespace
      outside `[ \t\n\r\f\v]`, the code as written agrees with the intent. */
  lemma CleanTextAgreesWithIntended(text: string)
    requires |Noise(text, false)| <= CountArgument
    requires forall i :: 0 <= i < |text| ==> IsSpace(text[i]) ==> IsAsciiSpace(text[i])
    ensures CleanText(text) == CleanTextIntended(text)
  {
    RemoveFirstAll(text, CountArgument, false);
    KeptAgree(text);
  }

  // ---------------------------------------------------------------------
  // Concrete inputs
  // ---------------------------------------------------------------------

  /** Every character is an ASCII letter or whitespace. */
  predicate LettersAndSpace(s: string) {
    forall i :: 0 <= i < |s| ==> IsAsciiLetter(s[i]) || IsSpace(s[i])
  }

  lemma LettersAndSpaceAppend(a: string, b: string)
    requires LettersAndSpace(a) && LettersAndSpace(b)
    ensures LettersAndSpace(a + b)
  {
  }

  /** Only the final disallowed character of such a sentence is removed. */
  lemma ReSubSentence(body: string, stop: char)
    requires LettersAndSpace(body)
    requires Disallowed(stop, false)
    ensures ReSub(body + [stop], CountArgument, false) == body
  {
    var text := body + [stop];
    FilterNone(body, c => Disallowed(c, false));
    FilterAll(body, c => !Disallowed(c, false));
    FilterAppend(body, [stop], c => Disallowed(c, false));
    FilterAppend(body, [stop], c => !Disallowed(c, false));
    assert Noise([stop], false) == [stop];
    assert Kept([stop], false) == [];
    RemoveFirstAll(text, CountArgument, false);
  }

  /** A sentence of letters and whitespace followed by one disallowed
      character (a full stop, say) cleans to the lower-cased sentence. */
  lemma CleanTextSentence(body: string, stop: char)
    requires LettersAndSpace(body)
    requires body == [] || (!IsSpace(body[0]) && !IsSpace(body[|body| - 1]))
    requires Disallowed(stop, false)
    ensures CleanText(body + [stop]) == Lower(body)
  {
    ReSubSentence(body, stop);
    StripFixed(Lower(body));
  }

  /** The message convert_audio_to_text returns for unintelligible audio. */
  const UnintelligibleMessage: string := "Speech recognition could not understand the audio."

  // The facts about the message are stated on pieces of at most ten
  // characters: the verifier evaluates a predicate over a short string
  // literal directly, and the pieces are then joined with
  // `LettersAndSpaceAppend` and `LowerAppend`.

  lemma UnintelligibleParts()
    ensures UnintelligibleMessage == "Speech rec" + "ognition c" + "ould not u" + "nderstand " + "the audio" + "."
  {
  }

  lemma UnintelligibleBody()
    ensures LettersAndSpace("Speech rec" + "ognition c" + "ould not u" + "nderstand " + "the audio")
  {
    assert LettersAndSpace("Speech rec");
    assert LettersAndSpace("ognition c");
    assert LettersAndSpace("ould not u");
    assert LettersAndSpace("nderstand ");
    assert LettersAndSpace("the audio");
    LettersAndSpaceAppend("Speech rec", "ognition c");
    LettersAndSpaceAppend("Speech rec" + "ognition c", "ould not u");
    LettersAndSpaceAppend("Speech rec" + "ognition c" + "ould not u", "nderstand ");
    LettersAndSpaceAppend("Speech rec" + "ognition c" + "ould not u" + "nderstand ", "the audio");
  }

  lemma UnintelligibleBodyLower()
    ensures Lower("Speech rec" + "ognition c" + "ould not u" + "nderstand " + "the audio")
         == "speech rec" + "ognition c" + "ould not u" + "nderstand " + "the audio"
  {
    LowerAppend("Speech rec" + "ognition c" + "ould not u" + "nderstand ", "the audio");
    LowerAppend("Speech rec" + "ognition c" + "ould not u", "nderstand ");
    LowerAppend("Speech rec" + "ognition c", "ould not u");
    LowerAppend("Speech rec", "ognition c");
    UnintelligibleChunksLower();
  }

  lemma UnintelligibleChunksLower()
    ensures Lower("Speech rec") == "speech rec"
    ensures Lower("ognition c") == "ognition c"
    ensures Lower("ould not u") == "ould not u"
    ensures Lower("nderstand ") == "nderstand "
    ensures Lower("the audio") == "the audio"
  {
    assert Lower("Speech rec") == "speech rec";
    LowerNoUpper("ognition c");
    LowerNoUpper("ould not u");
    LowerNoUpper("nderstand ");
    LowerNoUpper("the audio");
  }

  /** The unintelligible-audio message is cleaned and scored like any
      transcript; it cleans to a lower-case sentence without its full stop. */
  lemma UnintelligibleMessageCleans()
    ensures CleanText(UnintelligibleMessage) == "speech recognition could not understand the audio"
  {
    UnintelligibleParts();
    UnintelligibleBody();
    CleanTextSentence("Speech rec" + "ognition c" + "ould not u" + "nderstand " + "the audio", '.');
    UnintelligibleBodyLower();
    UnintelligibleLowerParts();
  }

  lemma UnintelligibleLowerParts()
    ensures "speech rec" + "ognition c" + "ould not u" + "nderstand " + "the audio"
         == "speech recognition could not understand the audio"
  {
  }

  /** `n` exclamation marks. */
  function Bangs(n: nat): (s: string)
    ensures |s| == n
  {
    seq(n, _ => '!')
  }

  /** Of 259 disallowed characters the count lets the last one through. */
  lemma ReSubBangs()
    ensures ReSub(Bangs(259), CountArgument, false) == "!"
  {
    var first := Bangs(258);
    assert Bangs(259) == first + "!";
    FilterAll(first, c => Disallowed(c, false));
    FilterNone(first, c => !Disallowed(c, false));
    ReSubSplit(first, "!", CountArgument, false);
  }

  /** 259 exclamation marks come out of clean_text as one. */
  lemma CleanTextBangs()
    ensures CleanText(Bangs(259)) == "!"
  {
    ReSubBangs();
    assert Lower("!") == "!";
    StripFixed("!");
  }
}
