/** `isArabic` and `isGreeting`: the two tests the webhook applies to the
    text of an incoming message. */
module Classify {
  import opened JsText

  /** Whether a code unit lies in the Arabic block, U+0600 to U+06FF. */
  predicate IsArabicUnit(u: CodeUnit) {
    0x0600 <= u <= 0x06FF
  }

  /** `isArabic(text)`: the pattern `/[\u0600-\u06FF]/` matches somewhere in
      the text. The regular expression has no `u` flag, so it matches single
      code units. A falsy text is the empty string. */
  function IsArabic(text: JsString): (r: bool)
    ensures r <==> exists i :: 0 <= i < |text| && IsArabicUnit(text[i])
  {
    if text == [] then false
    else if IsArabicUnit(text[0]) then true
    else
      assert forall i :: 1 <= i < |text| ==> text[i] == text[1..][i - 1];
      IsArabic(text[1..])
  }

  /** The texts that count as a greeting once trimmed and lower-cased, in the
      order the source compares them. */
  const Greetings: seq<JsString> := [
    [0x0645, 0x0631, 0x062D, 0x0628, 0x0627],                                      // marhaban
    [0x0645, 0x0631, 0x062D, 0x0628, 0x0627, 0x064B],                              // marhaban, with tanween
    [0x0627, 0x0644, 0x0633, 0x0644, 0x0627, 0x0645, 0x20,
     0x0639, 0x0644, 0x064A, 0x0643, 0x0645],                                      // as-salamu alaykum
    [0x0633, 0x0644, 0x0627, 0x0645, 0x20, 0x0639, 0x0644, 0x064A, 0x0643, 0x0645], // salamu alaykum
    [0x0633, 0x0644, 0x0627, 0x0645],                                              // salam
    [0x0647, 0x0644, 0x0627],                                                      // hala
    [0x68, 0x69],                                                                  // "hi"
    [0x68, 0x65, 0x6C, 0x6C, 0x6F],                                                // "hello"
    [0x68, 0x65, 0x79],                                                            // "hey"
    [0x0635, 0x0628, 0x0627, 0x062D, 0x20, 0x0627, 0x0644, 0x062E, 0x064A, 0x0631], // sabah al-khayr
    [0x0645, 0x0633, 0x0627, 0x0621, 0x20, 0x0627, 0x0644, 0x062E, 0x064A, 0x0631]  // masa al-khayr
  ]

  /** `isGreeting(text)`: the trimmed, lower-cased text is one of the
      greetings. A falsy text is the empty string. */
  predicate IsGreeting(text: JsString)
    ensures IsGreeting(text) ==> 2 <= |Trim(text)| <= 12 && !AllWhiteSpace(text)
  {
    LowerAscii(Trim(text)) in Greetings
  }

  /** The test ignores case: texts that lower-case alike are classified
      alike. */
  lemma GreetingIgnoresCase(a: JsString, b: JsString)
    requires LowerAscii(a) == LowerAscii(b)
    ensures IsGreeting(a) <==> IsGreeting(b)
  {
    LowerTrimCommute(a);
    LowerTrimCommute(b);
  }

  /** The test ignores white space around the text. */
  lemma GreetingIgnoresPadding(pre: JsString, s: JsString, post: JsString)
    requires AllWhiteSpace(pre) && AllWhiteSpace(post)
    ensures IsGreeting(pre + s + post) <==> IsGreeting(s)
  {
    TrimPadded(pre, s, post);
  }

  /** "Hello" is a greeting: its capital H is lower-cased. */
  lemma HelloIsGreeting()
    ensures IsGreeting([0x48, 0x65, 0x6C, 0x6C, 0x6F])
  {
    var hello: JsString := [0x48, 0x65, 0x6C, 0x6C, 0x6F];
    assert !IsWhiteSpace(hello[0]) && !IsWhiteSpace(hello[4]);
    TrimmedIsFixpoint(hello);
    assert LowerAscii(hello) == Greetings[7] by {
      assert |LowerAscii(hello)| == 5;
      assert LowerUnit(0x48) == 0x68;
    }
  }

  /** A text made of two pieces is Arabic exactly when one of them is. */
  lemma ArabicAppend(a: JsString, b: JsString)
    ensures IsArabic(a + b) <==> IsArabic(a) || IsArabic(b)
  {
    if IsArabic(a) {
      var i :| 0 <= i < |a| && IsArabicUnit(a[i]);
      assert (a + b)[i] == a[i];
    }
    if IsArabic(b) {
      var i :| 0 <= i < |b| && IsArabicUnit(b[i]);
      assert (a + b)[|a| + i] == b[i];
    }
    if IsArabic(a + b) {
      var i :| 0 <= i < |a + b| && IsArabicUnit((a + b)[i]);
      if i < |a| {
        assert a[i] == (a + b)[i];
      } else {
        assert b[i - |a|] == (a + b)[i];
      }
    }
  }
}
