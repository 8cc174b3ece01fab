/**
 The translator's code table: 37 entries pairing a symbol (a capital letter,
 a digit or the space) with its code. Letters and figures carry their
 International Morse Code signals; the space carries the word token "/".
 The forward dictionary is built from the entries in the order they are
 listed, and the reverse dictionary is built from the forward dictionary's
 items in that same order, each code becoming a key whose value is its
 symbol.
 */
module MorseTable {
  import opened Text
  import opened Dictionary

  /** The table's entries, in the order they are listed, one group per line of the listing. */
  const Entries: seq<(char, string)> :=
    [('A', ".-"), ('B', "-..."), ('C', "-.-."), ('D', "-.."), ('E', "."), ('F', "..-.")] +
    [('G', "--."), ('H', "...."), ('I', ".."), ('J', ".---"), ('K', "-.-"), ('L', ".-..")] +
    [('M', "--"), ('N', "-."), ('O', "---"), ('P', ".--."), ('Q', "--.-"), ('R', ".-.")] +
    [('S', "..."), ('T', "-"), ('U', "..-"), ('V', "...-"), ('W', ".--"), ('X', "-..-")] +
    [('Y', "-.--"), ('Z', "--.."), ('1', ".----"), ('2', "..---"), ('3', "...--")] +
    [('4', "....-"), ('5', "....."), ('6', "-...."), ('7', "--..."), ('8', "---..")] +
    [('9', "----."), ('0', "-----"), (' ', "/")]

  /** The symbols of the table: capital letters, digits and the space. */
  predicate IsSymbol(c: char) {
    'A' <= c <= 'Z' || '0' <= c <= '9' || c == ' '
  }

  /** The characters codes are written in: dot, dash and the word token's slash. */
  const CodeAlphabet: set<char> := {'.', '-', '/'}

  /** The symbol-to-code dictionary. */
  const Forward: map<char, string> := BuildMap(Entries)

  /** The code-to-symbol dictionary, built from the forward dictionary's items. */
  const Reverse: map<string, char> := BuildMap(Flip(Entries))

  /**
   The symbol listed at position `i`: the letters A to Z, then the figures
   1 to 9, then 0, then the space.
   */
  function SymbolAt(i: int): (c: char)
    requires 0 <= i < 37
    ensures IsSymbol(c)
  {
    if i < 26 then ('A' as int + i) as char
    else if i < 35 then ('1' as int + (i - 26)) as char
    else if i == 35 then '0'
    else ' '
  }

  /** The entries list exactly the symbols A to Z, 1 to 9, 0 and space, in that order. */
  lemma SymbolsInOrder()
    ensures |Entries| == 37
    ensures forall i :: 0 <= i < |Entries| ==> Entries[i].0 == SymbolAt(i)
  {
  }

  lemma SymbolAtIndex(i: int)
    requires 0 <= i < 37
    ensures |Entries| == 37 && Entries[i].0 == SymbolAt(i)
  {
    SymbolsInOrder();
  }

  /** No symbol is listed twice. */
  lemma SymbolsDistinct()
    ensures DistinctKeys(Entries)
  {
    SymbolsInOrder();
  }

  lemma CodesDistinctFirstRows()
    ensures forall i, j :: 0 <= i < 12 && i < j < |Entries| ==> Entries[i].1 != Entries[j].1
  {
  }

  lemma CodesDistinctLastRows()
    ensures forall i, j :: 12 <= i < j < |Entries| ==> Entries[i].1 != Entries[j].1
  {
  }

  /** No code is listed twice, so no symbol is lost when the table is inverted. */
  lemma CodesDistinct()
    ensures DistinctKeys(Flip(Entries))
  {
    CodesDistinctFirstRows();
    CodesDistinctLastRows();
  }

  /** Entry `i` is found in both directions. */
  lemma Lookup(i: int)
    requires 0 <= i < |Entries|
    ensures Entries[i].0 in Forward && Forward[Entries[i].0] == Entries[i].1
    ensures Entries[i].1 in Reverse && Reverse[Entries[i].1] == Entries[i].0
  {
    SymbolsDistinct();
    CodesDistinct();
    BuildMapAt(Entries, i);
    BuildMapAt(Flip(Entries), i);
  }

  /** The forward dictionary holds exactly the capital letters, the digits and the space. */
  lemma ForwardDomain(c: char)
    ensures c in Forward <==> IsSymbol(c)
  {
    SymbolsInOrder();
    if c in Forward {
      var i := BuildMapIndex(Entries, c);
    }
    if IsSymbol(c) {
      var i :=
        if 'A' <= c <= 'Z' then c as int - 'A' as int
        else if '1' <= c <= '9' then 26 + (c as int - '1' as int)
        else if c == '0' then 35
        else 36;
      assert Entries[i].0 == c;
      BuildMapHas(Entries, i);
    }
  }

  /**
   The reverse dictionary is an exact inverse of the forward one: each
   symbol's code leads back to that symbol, each known code leads to a
   symbol whose code it is, and both dictionaries hold all 37 entries.
   */
  lemma ReverseIsInverse()
    ensures forall c :: c in Forward ==> Forward[c] in Reverse && Reverse[Forward[c]] == c
    ensures forall k :: k in Reverse ==> Reverse[k] in Forward && Forward[Reverse[k]] == k
    ensures |Forward| == |Reverse| == 37
  {
    SymbolsInOrder();
    SymbolsDistinct();
    CodesDistinct();
    BuildMapInverse(Entries);
  }

  /** A string of dots and dashes only. */
  predicate IsSignal(s: string) {
    forall k :: 0 <= k < |s| ==> s[k] == '.' || s[k] == '-'
  }

  lemma SignalsFirstRows()
    ensures forall i :: 0 <= i < 18 ==> 0 < |Entries[i].1| <= 5 && IsSignal(Entries[i].1)
  {
  }

  lemma SignalsLastRows()
    ensures forall i :: 18 <= i < 36 ==> 0 < |Entries[i].1| <= 5 && IsSignal(Entries[i].1)
    ensures Entries[36].1 == "/"
  {
  }

  /**
   Every code is non-empty and written in dots, dashes and slashes only, so
   no code contains a space; "/" is the code of the space and of nothing
   else, and letters and figures are signals of one to five dots and dashes.
   */
  lemma CodeShape(c: char)
    requires c in Forward
    ensures |Forward[c]| > 0
    ensures Over(Forward[c], CodeAlphabet)
    ensures ' ' !in Forward[c]
    ensures Forward[c] == "/" <==> c == ' '
    ensures c != ' ' ==> |Forward[c]| <= 5 && IsSignal(Forward[c])
  {
    var i := BuildMapIndex(Entries, c);
    Lookup(i);
    SignalsFirstRows();
    SignalsLastRows();
    if i == 36 {
      assert Forward[c] == "/";
    } else {
      var code := Forward[c];
      assert IsSignal(code);
      assert code != "/";
    }
  }

  /**
   The International Morse Code signal of figure `n`: five elements, where
   figures 1 to 5 start with n dots and end in dashes, figures 6 to 9 start
   with n - 5 dashes and end in dots, and 0 is five dashes.
   */
  function FigureSignal(n: int): (r: string)
    requires 0 <= n <= 9
    ensures |r| == 5 && IsSignal(r)
  {
    var m := if n == 0 then 10 else n;
    seq(5, k => if (m <= 5 && k < m) || (m > 5 && k >= m - 5) then '.' else '-')
  }

  lemma FigureRows()
    ensures forall i :: 26 <= i < 36 ==> '0' <= Entries[i].0 <= '9' && Entries[i].1 == FigureSignal(Entries[i].0 as int - '0' as int)
  {
  }

  /** The table's figure codes are the International Morse Code figure signals. */
  lemma FiguresAreStandard(d: char)
    requires '0' <= d <= '9'
    ensures d in Forward && Forward[d] == FigureSignal(d as int - '0' as int)
  {
    var n := d as int - '0' as int;
    var i := if n == 0 then 35 else n + 25;
    SymbolAtIndex(i);
    Lookup(i);
    FigureRows();
  }
}
