/**
 Worked examples of the translator on concrete inputs, each derived from the
 general laws and the table's entries.
 */
module MorseExamples {
  import opened Text
  import opened Dictionary
  import opened MorseTable
  import opened Morse
  import opened MorseLaws

  const Sos: string := "... --- ..."

  /** The code of S is three dots and the code of O is three dashes. */
  lemma SosCodes()
    ensures 'S' in Forward && Forward['S'] == "..."
    ensures 'O' in Forward && Forward['O'] == "---"
  {
    Lookup(18);
    Lookup(14);
    assert Entries[18] == ('S', "...");
    assert Entries[14] == ('O', "---");
  }

  /** "SOS" encodes to three dots, three dashes and three dots. */
  lemma EncodeSos()
    ensures Encode("SOS") == Sos
  {
    var text := "SOS";
    SosCodes();
    UpperOfSymbols(text);
    KnownOfSymbols(text);
    LookUpPresent(text, Forward);
    assert LookUp(text, Forward) == ["...", "---", "..."];
    assert Join(["...", "---", "..."], ' ') == Sos;
  }

  /** Lower-case input encodes like upper-case input. */
  lemma EncodeLowerSos()
    ensures Encode("sos") == Sos
  {
    EncodeIgnoresCase("sos");
    assert Upper("sos") == "SOS";
    EncodeSos();
  }

  lemma SosRoundTrip()
    ensures Decode(Encode("SOS")) == "SOS"
  {
    RoundTrip("SOS");
    UpperOfSymbols("SOS");
    KnownOfSymbols("SOS");
  }

  /** Decoding the SOS signal gives "SOS" back. */
  lemma DecodeSos()
    ensures Decode(Sos) == "SOS"
  {
    SosRoundTrip();
    EncodeSos();
  }

  /** A doubled space inside the signal changes nothing. */
  lemma DecodeSosDoubledSpace()
    ensures Decode("... ---  ...") == "SOS"
  {
    var a, b := "... ---", "...";
    assert Decode(a + "  " + b) == Decode(a + " " + b) by {
      DecodeIgnoresDoubledSpace(a, b);
    }
    assert a + "  " + b == "... ---  ...";
    assert a + " " + b == Sos;
    DecodeSos();
  }

  /** Empty text encodes to the empty string, and the empty string decodes to nothing. */
  lemma EmptyBothWays()
    ensures Encode("") == ""
    ensures Decode("") == ""
  {
    assert Present(Upper(""), Forward) == "";
    EncodeTokens("");
    DecodeEmpty();
  }

  /** A character outside the table, here '#', is dropped. */
  lemma EncodeDropsHash()
    ensures Encode("A1 #") == Encode("A1 ")
  {
    ForwardDomain('#');
    EncodeDropsUnsupported("A1 ", '#', "");
    assert "A1 " + ['#'] + "" == "A1 #";
    assert "A1 " + "" == "A1 ";
  }

  /** Words are separated by the "/" token. */
  lemma HiThereHasSlash()
    ensures "/" in Split(Encode("HI THERE"), ' ')
  {
    assert "HI THERE"[2] == ' ';
    SpaceIsVisible("HI THERE");
  }

  /** Text made only of characters outside the table encodes to the empty string. */
  lemma EncodeUnsupportedOnly()
    ensures Encode("#!") == ""
  {
    ForwardDomain('#');
    ForwardDomain('!');
    assert Upper("#!") == "#!";
    assert Present("#!", Forward) == "";
    EncodeTokens("#!");
  }

  /** The word token "/" decodes back to a space. */
  lemma DecodeSlash()
    ensures "/" in Reverse && Reverse["/"] == ' '
    ensures Decode("/") == " "
  {
    Lookup(36);
    assert Entries[36] == (' ', "/");
    DecodeToken("/");
  }
}
