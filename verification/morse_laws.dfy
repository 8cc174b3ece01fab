/**
 Laws of the translator: how encoding treats case and unsupported
 characters, how many tokens it produces, how decoding treats recognised,
 unknown and empty tokens, and that the two directions undo each other.
 */
module MorseLaws {
  import opened Text
  import opened Dictionary
  import opened MorseTable
  import opened Morse

  // ---------------------------------------------------------------------
  // Symbols and the table
  // ---------------------------------------------------------------------

  /** Table symbols are not lower-case, so upper-casing leaves them alone. */
  lemma UpperOfSymbols(s: string)
    requires forall i :: 0 <= i < |s| ==> IsSymbol(s[i])
    ensures Upper(s) == s
  {
  }

  /**
   Letters, digits and the space are all in the table: one direction of
   `ForwardDomain`, lifted to a whole string in the form `PresentAll` needs.
   */
  lemma SymbolsKnown(s: string)
    requires forall i :: 0 <= i < |s| ==> IsSymbol(s[i])
    ensures forall i :: 0 <= i < |s| ==> s[i] in Forward
  {
    forall i | 0 <= i < |s|
      ensures s[i] in Forward
    {
      ForwardDomain(s[i]);
    }
  }

  /** A string of letters, digits and spaces passes the encoder's filter whole. */
  lemma KnownOfSymbols(s: string)
    requires forall i :: 0 <= i < |s| ==> IsSymbol(s[i])
    ensures Present(s, Forward) == s
  {
    SymbolsKnown(s);
    PresentAll(s, Forward);
  }

  /** What the encoder's filter keeps are letters, digits and spaces. */
  lemma KeptAreSymbols(s: string)
    ensures forall i :: 0 <= i < |Present(s, Forward)| ==> IsSymbol(Present(s, Forward)[i])
  {
    var k := Present(s, Forward);
    forall i | 0 <= i < |k|
      ensures IsSymbol(k[i])
    {
      ForwardDomain(k[i]);
    }
  }

  /**
   The reverse dictionary inverts the forward one: the first clause of
   `ReverseIsInverse`, alone and in the form `LookUpInverse` requires, so
   that callers do not carry the table's size clauses.
   */
  lemma ForwardThenReverse()
    ensures forall k :: k in Forward ==> Forward[k] in Reverse && Reverse[Forward[k]] == k
  {
    ReverseIsInverse();
  }

  /**
   The forward dictionary inverts the reverse one: the second clause of
   `ReverseIsInverse`, alone and in the form `LookUpInverse` requires.
   */
  lemma ReverseThenForward()
    ensures forall k :: k in Reverse ==> Reverse[k] in Forward && Forward[Reverse[k]] == k
  {
    ReverseIsInverse();
  }

  // ---------------------------------------------------------------------
  // Encoding
  // ---------------------------------------------------------------------

  /** Encoding ignores case: upper-casing first changes nothing. */
  lemma EncodeIgnoresCase(text: string)
    ensures Encode(Upper(text)) == Encode(text)
  {
    UpperIdempotent(text);
  }

  /** Encoding depends only on the supported characters of the upper-cased text. */
  lemma EncodeSeesOnlyKnown(text: string)
    ensures Encode(Present(Upper(text), Forward)) == Encode(text)
  {
    var u := Upper(text);
    var k := Present(u, Forward);
    KeptAreSymbols(u);
    UpperOfSymbols(k);
    LookUpOfPresent(u, Forward);
  }

  /**
   A character whose upper-case form is not in the table contributes
   nothing, wherever it stands.
   */
  lemma EncodeDropsUnsupported(a: string, c: char, b: string)
    requires UpperChar(c) !in Forward
    ensures Encode(a + [c] + b) == Encode(a + b)
  {
    var ua, ub, uc := Upper(a), Upper(b), UpperChar(c);
    assert Upper(a + [c] + b) == ua + [uc] + ub by {
      UpperAppend(a + [c], b);
      UpperAppend(a, [c]);
    }
    UpperAppend(a, b);
    LookUpSkips(ua, uc, ub, Forward);
  }

  /**
   The encoding of text with at least one supported character splits back
   into exactly the codes of those characters, one token each; text with
   none, and only such text, encodes to the empty string.
   */
  lemma EncodeTokens(text: string)
    ensures Encode(text) == "" <==> Present(Upper(text), Forward) == ""
    ensures Present(Upper(text), Forward) != "" ==> Split(Encode(text), ' ') == LookUp(Upper(text), Forward)
    ensures Present(Upper(text), Forward) != "" ==> |Split(Encode(text), ' ')| == |Present(Upper(text), Forward)|
    ensures Present(Upper(text), Forward) != "" ==> Occurrences(Encode(text), ' ') == |Present(Upper(text), Forward)| - 1
  {
    var codes := LookUp(Upper(text), Forward);
    if Present(Upper(text), Forward) != "" {
      CodesWellFormed(Upper(text));
      JoinShape(codes, ' ', CodeAlphabet);
      SplitJoin(codes, ' ');
      SplitCount(Encode(text), ' ');
    }
  }

  /** The token for a character is "/" exactly when the character is a space. */
  lemma SlashMarksSpace(text: string)
    ensures forall i :: 0 <= i < |LookUp(Upper(text), Forward)| ==>
      (LookUp(Upper(text), Forward)[i] == "/" <==> Present(Upper(text), Forward)[i] == ' ')
  {
    var u := Upper(text);
    var k := Present(u, Forward);
    LookUpPresent(u, Forward);
    forall i | 0 <= i < |k|
      ensures LookUp(u, Forward)[i] == "/" <==> k[i] == ' '
    {
      CodeShape(k[i]);
    }
  }

  /** A space in the input is not swallowed: it shows up as a "/" token. */
  lemma SpaceIsVisible(text: string)
    requires ' ' in text
    ensures "/" in Split(Encode(text), ' ')
  {
    var u := Upper(text);
    var j :| 0 <= j < |text| && text[j] == ' ';
    assert u[j] == ' ';
    ForwardDomain(' ');
    PresentContains(u, Forward, ' ');
    var k := Present(u, Forward);
    var i :| 0 <= i < |k| && k[i] == ' ';
    SlashMarksSpace(text);
    EncodeTokens(text);
    assert LookUp(u, Forward)[i] == "/";
  }

  // ---------------------------------------------------------------------
  // Decoding
  // ---------------------------------------------------------------------

  /** The empty token is not a code, so the empty input and doubled spaces yield nothing. */
  lemma EmptyTokenUnknown()
    ensures "" !in Reverse
  {
    ReverseIsInverse();
    if "" in Reverse {
      CodeShape(Reverse[""]);
    }
  }

  /** The empty input decodes to the empty string. */
  lemma DecodeEmpty()
    ensures Decode("") == ""
  {
    EmptyTokenUnknown();
    assert Split("", ' ') == [""];
  }

  /** A recognised token is kept by the decoder's filter exactly when it occurs. */
  lemma DecodeSeesKnownTokens(code: string, t: string)
    requires t in Reverse
    ensures t in Present(Split(code, ' '), Reverse) <==> t in Split(code, ' ')
  {
    PresentContains(Split(code, ' '), Reverse, t);
  }

  /** Decoding a single space-free token gives its symbol if it is a code, and nothing otherwise. */
  lemma DecodeToken(t: string)
    requires ' ' !in t
    ensures t in Reverse ==> Decode(t) == [Reverse[t]]
    ensures t !in Reverse ==> Decode(t) == ""
  {
    SplitJoin([t], ' ');
    assert Join([t], ' ') == t;
  }

  /** Decoding around one space decodes each side independently. */
  lemma DecodeAround(a: string, b: string)
    ensures Decode(a + " " + b) == Decode(a) + Decode(b)
  {
    assert a + " " + b == a + [' '] + b;
    SplitAround(a, b, ' ');
    LookUpAppend(Split(a, ' '), Split(b, ' '), Reverse);
  }

  /**
   Between two spaces, a recognised token contributes its symbol and an
   unknown token contributes nothing.
   */
  lemma DecodeTokenInside(a: string, t: string, b: string)
    requires ' ' !in t
    ensures t in Reverse ==> Decode(a + " " + t + " " + b) == Decode(a) + [Reverse[t]] + Decode(b)
    ensures t !in Reverse ==> Decode(a + " " + t + " " + b) == Decode(a) + Decode(b)
  {
    assert a + " " + t + " " + b == a + " " + (t + " " + b);
    DecodeAround(a, t + " " + b);
    DecodeAround(t, b);
    DecodeToken(t);
  }

  /** A doubled space between two pieces of code decodes like a single one. */
  lemma DecodeIgnoresDoubledSpace(a: string, b: string)
    ensures Decode(a + "  " + b) == Decode(a + " " + b)
  {
    assert a + "  " + b == a + " " + ("" + " " + b);
    DecodeAround(a, "" + " " + b);
    DecodeAround("", b);
    assert "" + " " + b == " " + b;
    DecodeEmpty();
    DecodeAround(a, b);
  }

  // ---------------------------------------------------------------------
  // Round trips
  // ---------------------------------------------------------------------

  /** Looking up the codes of the known characters gives those characters back. */
  lemma SymbolsOfCodes(s: string)
    ensures LookUp(LookUp(s, Forward), Reverse) == Present(s, Forward)
  {
    ForwardThenReverse();
    LookUpInverse(s, Forward, Reverse);
  }

  /**
   Decoding an encoding gives back the upper-cased text with its
   unsupported characters removed.
   */
  lemma RoundTrip(text: string)
    ensures Decode(Encode(text)) == Present(Upper(text), Forward)
  {
    var u := Upper(text);
    if Present(u, Forward) == "" {
      EncodeTokens(text);
      DecodeEmpty();
    } else {
      EncodeTokens(text);
      SymbolsOfCodes(u);
    }
  }

  /** Text whose upper-case form is all letters, digits and spaces loses nothing to filtering. */
  lemma {:induction false} SupportedKeptWhole(text: string)
    requires forall i :: 0 <= i < |text| ==> IsSymbol(UpperChar(text[i]))
    ensures Present(Upper(text), Forward) == Upper(text)
  {
    if |text| > 0 {
      var c, u := UpperChar(text[0]), Upper(text[1..]);
      SupportedKeptWhole(text[1..]);
      ForwardDomain(c);
      assert Upper(text) == [c] + u;
      assert ([c] + u)[1..] == u;
    }
  }

  /** On text whose upper-case form is all letters, digits and spaces, decoding undoes encoding. */
  lemma RoundTripSupported(text: string)
    requires forall i :: 0 <= i < |text| ==> IsSymbol(UpperChar(text[i]))
    ensures Decode(Encode(text)) == Upper(text)
  {
    SupportedKeptWhole(text);
    RoundTrip(text);
  }

  /** Every token of `codes` is a code the reverse dictionary knows. */
  predicate Recognised(codes: seq<string>) {
    forall i :: 0 <= i < |codes| ==> codes[i] in Reverse
  }

  /** Codes the reverse dictionary knows contain no space. */
  lemma RecognisedHaveNoSpace(codes: seq<string>)
    requires Recognised(codes)
    ensures forall i :: 0 <= i < |codes| ==> ' ' !in codes[i]
  {
    ReverseIsInverse();
    forall i | 0 <= i < |codes|
      ensures ' ' !in codes[i]
    {
      CodeShape(Reverse[codes[i]]);
    }
  }

  /** The symbols of recognised codes are letters, digits and spaces. */
  lemma RecognisedSymbols(codes: seq<string>)
    ensures forall i :: 0 <= i < |LookUp(codes, Reverse)| ==> IsSymbol(LookUp(codes, Reverse)[i])
  {
    var d := LookUp(codes, Reverse);
    LookUpPresent(codes, Reverse);
    ReverseIsInverse();
    forall i | 0 <= i < |d|
      ensures IsSymbol(d[i])
    {
      ForwardDomain(d[i]);
    }
  }

  /** Looking up the symbols of recognised codes gives those codes back. */
  lemma CodesOfSymbols(codes: seq<string>)
    requires Recognised(codes)
    ensures LookUp(LookUp(codes, Reverse), Forward) == codes
  {
    ReverseThenForward();
    LookUpInverse(codes, Reverse, Forward);
    PresentAll(codes, Reverse);
  }

  /** At least one recognised code, joined by single spaces, decodes to the codes' symbols. */
  lemma DecodeJoinedSome(codes: seq<string>)
    requires |codes| > 0
    requires Recognised(codes)
    ensures Decode(Join(codes, ' ')) == LookUp(codes, Reverse)
  {
    RecognisedHaveNoSpace(codes);
    SplitJoin(codes, ' ');
  }

  /** Decoding recognised codes joined by single spaces gives their symbols. */
  lemma DecodeJoined(codes: seq<string>)
    requires Recognised(codes)
    ensures Decode(Join(codes, ' ')) == LookUp(codes, Reverse)
  {
    if |codes| == 0 {
      DecodeEmpty();
      assert codes == [];
    } else {
      DecodeJoinedSome(codes);
    }
  }

  /** Encoding the symbols of recognised codes joins those codes with single spaces. */
  lemma EncodeSymbols(codes: seq<string>)
    requires Recognised(codes)
    ensures Encode(LookUp(codes, Reverse)) == Join(codes, ' ')
  {
    var d := LookUp(codes, Reverse);
    assert Upper(d) == d by {
      RecognisedSymbols(codes);
      UpperOfSymbols(d);
    }
    CodesOfSymbols(codes);
  }

  /**
   Encoding a decoding gives back any string made of table codes joined by
   single spaces.
   */
  lemma DecodeThenEncode(codes: seq<string>)
    requires Recognised(codes)
    ensures Encode(Decode(Join(codes, ' '))) == Join(codes, ' ')
  {
    var d := Decode(Join(codes, ' '));
    assert d == LookUp(codes, Reverse) by {
      DecodeJoined(codes);
    }
    EncodeSymbols(codes);
  }

  /** Translating to Morse and back keeps the supported characters, upper-cased. */
  lemma TranslateRoundTrip(text: string)
    ensures Translate(Translate(text), false) == Present(Upper(text), Forward)
  {
    RoundTrip(text);
  }
}
