/**
 The translator itself. Encoding upper-cases the text, keeps the characters
 the table knows, replaces each by its code and joins the codes with single
 spaces. Decoding splits the text on single spaces, keeps the tokens the
 reverse dictionary knows, replaces each by its symbol and concatenates the
 symbols with no separator. Nothing is ever rejected: what is not known is
 dropped.
 */
module Morse {
  import opened Text
  import opened Dictionary
  import opened MorseTable

  /** Every code the table hands out is non-empty and written without spaces. */
  lemma CodesWellFormed(s: string)
    ensures forall i :: 0 <= i < |LookUp(s, Forward)| ==>
      var code := LookUp(s, Forward)[i];
      |code| > 0 && ' ' !in code && Over(code, CodeAlphabet)
  {
    var codes, known := LookUp(s, Forward), Present(s, Forward);
    LookUpPresent(s, Forward);
    forall i | 0 <= i < |codes|
      ensures |codes[i]| > 0 && ' ' !in codes[i] && Over(codes[i], CodeAlphabet)
    {
      CodeShape(known[i]);
    }
  }

  /**
   Morse encoding of `text`. The result is written in dots, dashes, slashes
   and spaces, and every space stands alone between two codes: there is no
   leading, trailing or doubled space.
   */
  function Encode(text: string): (r: string)
    ensures Over(r, CodeAlphabet + {' '})
    ensures SingleSeparated(r, ' ')
  {
    var codes := LookUp(Upper(text), Forward);
    CodesWellFormed(Upper(text));
    JoinShape(codes, ' ', CodeAlphabet);
    Join(codes, ' ')
  }

  /**
   Morse decoding of `code`. It never fails: the result has one symbol, a
   capital letter, a digit or a space, per recognised token.
   */
  function Decode(code: string): (r: string)
    ensures |r| == |Present(Split(code, ' '), Reverse)|
    ensures forall i :: 0 <= i < |r| ==> IsSymbol(r[i])
  {
    var tokens := Split(code, ' ');
    var symbols := LookUp(tokens, Reverse);
    ReverseIsInverse();
    LookUpPresent(tokens, Reverse);
    forall i | 0 <= i < |symbols|
      ensures IsSymbol(symbols[i])
    {
      ForwardDomain(symbols[i]);
    }
    symbols
  }

  /** The translator's entry point: encode by default, decode when asked. */
  function Translate(text: string, toMorse: bool := true): (r: string)
    ensures toMorse ==> Over(r, CodeAlphabet + {' '}) && SingleSeparated(r, ' ')
    ensures !toMorse ==> forall i :: 0 <= i < |r| ==> IsSymbol(r[i])
  {
    if toMorse then Encode(text) else Decode(text)
  }
}
