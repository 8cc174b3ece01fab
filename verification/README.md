# Morse translator of TacticaX

TacticaX is a small Streamlit application. Its one piece of self-contained
logic is `morse_code_translate(text, to_morse=True)`, which translates
between plain text and International Morse Code. This project models that
function and proves its laws.

The translator works as follows:

- **The table.** A dictionary with 37 entries maps the capital letters A to
  Z and the figures 1 to 9 and 0 to their Morse signals. It also maps the
  space to the word token `/`.
- **Encoding** (the default direction). The text is upper-cased. Every
  character the table does not know is dropped. Each remaining character
  is replaced by its code, and the codes are joined with single spaces.
- **Decoding.** The dictionary is inverted, so that each code maps to its
  symbol. The text is split on single spaces, every token the inverted
  dictionary does not know is dropped, and the symbols of the rest are
  concatenated with no separator.

Neither direction ever fails.

The project has six modules:

- `Text` (`text.dfy`): ASCII upper-casing, join and split with a
  one-character separator, and the shape predicates for joined strings.
- `Dictionary` (`dictionary.dfy`): dictionaries as the translator uses them.
  - `BuildMap` builds a dictionary from pairs taken in order, and a later
    duplicate key overwrites an earlier one (`BuildMapLastOccurrence`).
  - `Flip` exchanges key and value in every pair.
  - `Present` is the generator's filter `if char in d`: it keeps the
    elements that are keys of a dictionary, in order.
  - `LookUp` is the generator `d[char] for char in xs if char in d`: it
    yields the values of those elements, in order.
- `MorseTable` (`table.dfy`): the 37 entries in the order the dictionary
  literal lists them.
  - `Forward` is `BuildMap(Entries)`.
  - `Reverse` is `BuildMap(Flip(Entries))`. This is the dictionary
    comprehension over the forward dictionary's items, in the same order.
- `Morse` (`morse.dfy`): the two directions and the entry point `Translate`.
  - `Encode(text)` is `Join(LookUp(Upper(text), Forward), ' ')`.
  - `Decode(code)` is `LookUp(Split(code, ' '), Reverse)`, a string.
- `MorseLaws` (`morse_laws.dfy`): case-insensitivity, filtering, token
  counts, the visible word token, the decoder's treatment of recognised,
  unknown and empty tokens, and the round trips in both directions.
- `MorseExamples` (`morse_examples.dfy`): concrete translations derived from
  the laws and the table.

Python's `str.split(' ')` is modelled exactly:

- The empty string gives one empty token.
- Two adjacent spaces give an empty token between them.

This is why the decoder's filtering also discards doubled spaces.

## Model

| member | source | states |
|---|---|---|
| Text.Upper | app.py:33 | upper-casing keeps the length, maps every character through the ASCII upper-case mapping, leaves no lower-case letter, and turns a character into a capital exactly when it was a capital or a lower-case letter |
| Text.UpperIdempotent | app.py:33 | upper-casing an already upper-cased text changes nothing |
| Text.UpperAppend | app.py:33 | upper-casing works character by character, so it distributes over concatenation |
| Text.Join | app.py:33 | `' '.join`: the parts with the separator between each two; what it means is stated by its partners `Text.SplitJoin` (splitting the join of separator-free parts recovers them), `Text.JoinSplit` (join undoes split) and `Text.JoinShape` (the joined string's alphabet and spacing) |
| Text.Split | app.py:36 | splitting on a separator always yields at least one token, and no token contains the separator |
| Text.SplitCount | app.py:36 | splitting yields exactly one more token than there are separators in the string |
| Text.JoinSplit | app.py:36 | joining the tokens of a split with the same separator restores the original string |
| Text.SplitJoin | app.py:33-36 | splitting a join of separator-free parts recovers exactly those parts |
| Text.SplitAround | app.py:36 | splitting a string around one separator is splitting the two sides and concatenating the token lists |
| Text.JoinShape | app.py:33 | joining non-empty, separator-free parts gives a string over the parts' alphabet plus the separator in which every separator stands alone between two non-separators, and which is non-empty when there is a part |
| Dictionary.BuildMap | app.py:23-31 | a dictionary display evaluated pair by pair; what it means is stated by its partners `Dictionary.BuildMapLast` (the last pair listed wins) and `Dictionary.BuildMapLastOccurrence` (every key maps to the value of the last pair listing it), `Dictionary.BuildMapHas` and `Dictionary.BuildMapIndex` (the keys are exactly the listed ones), `Dictionary.BuildMapAt` and `Dictionary.BuildMapSize` (with distinct keys, every pair is kept, one entry each) and `Dictionary.BuildMapInverse` (the inverted dictionary) |
| Dictionary.Flip | app.py:35 | the `v: k` of the comprehension over `items()`: every pair with key and value exchanged, in the same order; what it means is stated by its partners `Dictionary.BuildMapInverse` (building a dictionary from the flipped pairs inverts the original when keys and values are both distinct), `MorseTable.CodesDistinct` (the table's values are distinct) and `MorseTable.ReverseIsInverse` (so the reverse dictionary is an exact inverse) |
| Dictionary.BuildMapLast | app.py:23-31 | the last pair listed wins: its key maps to its value whatever came before it |
| Dictionary.BuildMapLastOccurrence | app.py:23-31 | a key maps to the value of the last pair that lists it, whatever pairs with that key came before |
| Dictionary.BuildMapHas | app.py:23-31 | every listed key is in the dictionary |
| Dictionary.BuildMapIndex | app.py:23-31 | every key of the dictionary is listed at some position |
| Dictionary.BuildMapAt | app.py:23-31 | when no key is repeated, every listed pair is in the dictionary with its own value |
| Dictionary.BuildMapSize | app.py:23-31 | when no key is repeated, the dictionary has one entry per pair |
| Dictionary.BuildMapInverse | app.py:35 | when keys and values are both distinct, the dictionary and its inversion undo each other in both directions and have the same size as the pair list |
| Dictionary.Present | app.py:33 | the generator's filter `if char in d` keeps at most as many elements as it is given, and only keys of the dictionary |
| Dictionary.LookUp | app.py:33 | the generator `d[char] for char in xs if char in d` yields one value per element the filter keeps |
| Dictionary.LookUpPresent | app.py:33 | the i-th value yielded is the dictionary's value for the i-th element the filter keeps |
| Dictionary.PresentAppend | app.py:33 | the filter distributes over concatenation |
| Dictionary.LookUpAppend | app.py:33 | the lookup distributes over concatenation |
| Dictionary.LookUpOfPresent | app.py:33 | looking up only the kept elements yields the same values as looking up all of them |
| Dictionary.PresentContains | app.py:33 | a key survives the filter if and only if it occurs in the input |
| Dictionary.PresentAll | app.py:33 | a sequence made only of keys passes the filter whole |
| Dictionary.LookUpSkips | app.py:33 | an element that is not a key contributes nothing, wherever it stands |
| Dictionary.LookUpKeeps | app.py:33 | an element that is a key contributes its value, in place |
| Dictionary.LookUpInverse | app.py:33-36 | looking up through a dictionary and then through an inverse of it gives back exactly the kept elements |
| MorseTable.Entries | app.py:24-30 | the 37 symbol/code pairs of the dictionary literal, in the listed order; what they are is stated by `MorseTable.SymbolsInOrder`, `MorseTable.SymbolsDistinct`, `MorseTable.CodesDistinct`, `MorseTable.CodeShape` and `MorseTable.FiguresAreStandard` |
| MorseTable.Forward | app.py:23-31 | `morse_dict`, the dictionary built from the literal; what it holds is stated by `MorseTable.Lookup` (every entry under its symbol) and `MorseTable.ForwardDomain` (its keys are exactly the capital letters, the digits and the space) |
| MorseTable.Reverse | app.py:35 | `reverse_dict`, the comprehension over the forward dictionary's items; what it holds is stated by `MorseTable.ReverseIsInverse` (an exact inverse of the forward dictionary) and `MorseLaws.EmptyTokenUnknown` (the empty token is not a key) |
| MorseTable.SymbolsInOrder | app.py:24-30 | the table lists exactly 37 symbols: A to Z, then 1 to 9, then 0, then the space |
| MorseTable.SymbolsDistinct | app.py:24-30 | no symbol is listed twice |
| MorseTable.CodesDistinct | app.py:24-30 | no code is listed twice, so inverting the table loses no entry |
| MorseTable.Lookup | app.py:23-35 | every entry is found in the forward dictionary under its symbol and in the reverse dictionary under its code |
| MorseTable.ForwardDomain | app.py:23-31 | a character is in the forward dictionary if and only if it is a capital letter, a digit or the space |
| MorseTable.ReverseIsInverse | app.py:35 | the reverse dictionary is an exact inverse of the forward one in both directions, and both hold all 37 entries |
| MorseTable.CodeShape | app.py:24-30 | every code is non-empty, is written in dots, dashes and slashes, and contains no space; "/" is the code of the space and of nothing else; letter and figure codes are one to five dots and dashes |
| MorseTable.FiguresAreStandard | app.py:28-30 | the code of each figure is its International Morse Code signal: five elements, where 1 to 5 lead with n dots, 6 to 9 lead with n - 5 dashes, and 0 is five dashes |
| Morse.CodesWellFormed | app.py:24-33 | every emitted code is non-empty, has no space and is written in dots, dashes and slashes |
| Morse.Encode | app.py:33 | the encoding is written in dots, dashes, slashes and spaces, and no space is leading, trailing or doubled |
| Morse.Decode | app.py:35-36 | decoding never fails, and it yields one capital letter, digit or space per recognised token |
| Morse.Translate | app.py:22-36 | the entry point encodes by default, with the encoder's output shape, and decodes when asked, with only table symbols in the result |
| MorseLaws.UpperOfSymbols | app.py:33 | capital letters, digits and spaces are left alone by upper-casing |
| MorseLaws.SymbolsKnown | app.py:23-31 | capital letters, digits and spaces are all keys of the forward dictionary |
| MorseLaws.KnownOfSymbols | app.py:23-33 | a string of capital letters, digits and spaces passes the encoder's filter whole |
| MorseLaws.KeptAreSymbols | app.py:23-33 | every character the encoder's filter keeps is a capital letter, a digit or a space |
| MorseLaws.ForwardThenReverse | app.py:35 | the reverse dictionary maps every code back to its symbol |
| MorseLaws.ReverseThenForward | app.py:35 | the forward dictionary maps every symbol of the reverse dictionary back to its code |
| MorseLaws.EncodeIgnoresCase | app.py:33 | encoding the upper-cased text is encoding the text itself |
| MorseLaws.EncodeSeesOnlyKnown | app.py:33 | encoding depends only on the supported characters of the upper-cased text |
| MorseLaws.EncodeDropsUnsupported | app.py:33 | inserting a character whose upper-case form is outside the table, anywhere in the text, leaves the encoding unchanged |
| MorseLaws.EncodeTokens | app.py:33 | the encoding is empty exactly when the upper-cased text has no supported character; otherwise it splits on spaces into exactly the codes of the supported characters, one token each, with one space fewer than there are tokens |
| MorseLaws.SlashMarksSpace | app.py:30-33 | an emitted token is "/" if and only if the character it encodes is a space |
| MorseLaws.SpaceIsVisible | app.py:30-33 | a space in the input appears as a "/" token in the encoding |
| MorseLaws.EmptyTokenUnknown | app.py:35-36 | the empty token is not a code, so empty input and doubled spaces contribute nothing |
| MorseLaws.DecodeEmpty | app.py:36 | the empty string decodes to the empty string |
| MorseLaws.DecodeSeesKnownTokens | app.py:36 | a recognised token is kept by the decoder's filter if and only if it occurs among the tokens |
| MorseLaws.DecodeToken | app.py:36 | a single space-free token decodes to its symbol when the reverse dictionary knows it, and to nothing otherwise |
| MorseLaws.DecodeAround | app.py:36 | decoding around one space decodes the two sides independently and concatenates the results |
| MorseLaws.DecodeTokenInside | app.py:36 | a token between two spaces contributes its symbol, in place, when it is recognised, and nothing when it is not |
| MorseLaws.DecodeIgnoresDoubledSpace | app.py:36 | a doubled space between two pieces of code decodes like a single space |
| MorseLaws.SymbolsOfCodes | app.py:33-36 | looking up the codes of the supported characters gives those characters back |
| MorseLaws.RoundTrip | app.py:33-36 | decoding an encoding gives the upper-cased text with its unsupported characters removed |
| MorseLaws.SupportedKeptWhole | app.py:33 | when every upper-cased character is a letter, a digit or a space, the filter drops nothing from the upper-cased text |
| MorseLaws.RoundTripSupported | app.py:33-36 | when every upper-cased character is a letter, a digit or a space, decoding the encoding gives exactly the upper-cased text |
| MorseLaws.RecognisedHaveNoSpace | app.py:35 | no code the reverse dictionary knows contains a space |
| MorseLaws.RecognisedSymbols | app.py:35-36 | the symbols the decoder yields are capital letters, digits and spaces |
| MorseLaws.CodesOfSymbols | app.py:33-36 | encoding's lookup of the symbols of recognised codes gives back those codes |
| MorseLaws.DecodeJoinedSome | app.py:36 | decoding at least one recognised code joined by single spaces gives the codes' symbols |
| MorseLaws.DecodeJoined | app.py:36 | decoding recognised codes joined by single spaces gives their symbols |
| MorseLaws.EncodeSymbols | app.py:33-36 | encoding the symbols of recognised codes joins those codes with single spaces |
| MorseLaws.DecodeThenEncode | app.py:33-36 | encoding the decoding of recognised codes joined by single spaces gives that string back |
| MorseLaws.TranslateRoundTrip | app.py:22-36 | translating to Morse and back keeps exactly the supported characters, upper-cased |
| MorseExamples.SosCodes | app.py:26-27 | S is three dots and O is three dashes |
| MorseExamples.EncodeSos | app.py:33 | "SOS" encodes to "... --- ..." |
| MorseExamples.EncodeLowerSos | app.py:33 | "sos" encodes to "... --- ..." as well |
| MorseExamples.SosRoundTrip | app.py:33-36 | decoding the encoding of "SOS" gives "SOS" |
| MorseExamples.DecodeSos | app.py:35-36 | "... --- ..." decodes to "SOS" |
| MorseExamples.DecodeSosDoubledSpace | app.py:36 | "... ---  ...", with a doubled space, still decodes to "SOS" |
| MorseExamples.EmptyBothWays | app.py:33-36 | the empty string encodes and decodes to the empty string |
| MorseExamples.EncodeDropsHash | app.py:33 | "A1 #" encodes like "A1 " |
| MorseExamples.EncodeUnsupportedOnly | app.py:33 | "#!" encodes to the empty string |
| MorseExamples.HiThereHasSlash | app.py:30-33 | the encoding of "HI THERE" has a "/" token for the space |
| MorseExamples.DecodeSlash | app.py:30-36 | the reverse dictionary maps "/" to the space, and "/" decodes to " " |

## Left out

- The geofence `is_within_geofence` (app.py:9-13): its only logic is a `< 5`
  km threshold on a floating-point geodesic distance computed by geopy, a
  foreign library.
- The strategy generator `generate_ai_strategy_gemini` and the API-key
  setup (app.py:7, app.py:15-20): a network client for an external service.
- The Streamlit page `main` (app.py:38-90): user interface, session state
  and the timed splash screen.
- Text.Upper: models ASCII upper-casing only (`a`-`z` to `A`-`Z`) and
  keeps the length. Python's `str.upper()` applies the full Unicode case
  mapping, which can change the length (`ß` becomes `SS`) and can turn a
  character outside the table into one inside it (the dotless `ı` becomes
  `I`, the long `ſ` becomes `S`). `Text.Upper` leaves such characters
  unchanged, so the encoder's filter drops them where Python would encode
  their upper-case forms.
- MorseTable.ReverseIsInverse: states the inverse property pointwise in
  both directions plus equal sizes, not literally "the reverse dictionary's
  keys are the forward dictionary's values"; the pointwise clauses imply
  that set equality.
- The table's letter codes are stated entry by entry; only the figure codes
  are also checked against an independent description of the International
  Morse Code signals (`MorseTable.FiguresAreStandard`).
