/**
 The string operations the translator is built from: ASCII upper-casing,
 joining a list of words with a one-character separator, and splitting a
 string on a one-character separator the way a split with an explicit
 separator does (every separator ends a token, so an empty string gives one
 empty token and two adjacent separators give an empty token between them).
 */
module Text {

  predicate IsLower(c: char) {
    'a' <= c <= 'z'
  }

  /** Upper-cases an ASCII lower-case letter and leaves every other character alone. */
  function UpperChar(c: char): char {
    if IsLower(c) then (c as int - 32) as char else c
  }

  /** Upper-cases every character of `s`, one for one. */
  function Upper(s: string): (r: string)
    ensures |r| == |s|
    ensures forall i :: 0 <= i < |r| ==> r[i] == UpperChar(s[i])
    ensures forall i :: 0 <= i < |r| ==> !IsLower(r[i])
    ensures forall i :: 0 <= i < |r| ==> ('A' <= r[i] <= 'Z' <==> 'A' <= s[i] <= 'Z' || IsLower(s[i]))
  {
    if |s| == 0 then "" else [UpperChar(s[0])] + Upper(s[1..])
  }

  /** Upper-casing twice is upper-casing once. */
  lemma UpperIdempotent(s: string)
    ensures Upper(Upper(s)) == Upper(s)
  {
    var u := Upper(s);
    assert forall i :: 0 <= i < |u| ==> UpperChar(u[i]) == u[i];
  }

  /** Upper-casing distributes over concatenation. */
  lemma UpperAppend(a: string, b: string)
    ensures Upper(a + b) == Upper(a) + Upper(b)
  {
  }

  /** The parts, in order, with one `sep` between each two neighbours. */
  function Join(parts: seq<string>, sep: char): (r: string)
  {
    if |parts| == 0 then ""
    else if |parts| == 1 then parts[0]
    else parts[0] + [sep] + Join(parts[1..], sep)
  }

  /** The maximal runs of `s` between separators, in order; never an empty list. */
  function Split(s: string, sep: char): (r: seq<string>)
    ensures |r| >= 1
    ensures forall i :: 0 <= i < |r| ==> sep !in r[i]
  {
    if |s| == 0 then [""]
    else
      var rest := Split(s[1..], sep);
      if s[0] == sep then [""] + rest
      else [[s[0]] + rest[0]] + rest[1..]
  }

  /** Number of occurrences of `c` in `s`. */
  function Occurrences(s: string, c: char): nat
  {
    if |s| == 0 then 0 else (if s[0] == c then 1 else 0) + Occurrences(s[1..], c)
  }

  /** Splitting yields one more token than there are separators. */
  lemma {:induction false} SplitCount(s: string, sep: char)
    ensures |Split(s, sep)| == Occurrences(s, sep) + 1
  {
    if |s| > 0 {
      SplitCount(s[1..], sep);
    }
  }

  /** Joining the tokens of a split with the same separator gives the string back. */
  lemma {:induction false} JoinSplit(s: string, sep: char)
    ensures Join(Split(s, sep), sep) == s
  {
    if |s| > 0 {
      var rest := Split(s[1..], sep);
      JoinSplit(s[1..], sep);
      if s[0] == sep {
        assert Split(s, sep) == [""] + rest;
        assert ([""] + rest)[1..] == rest;
        assert Join([""] + rest, sep) == "" + [sep] + Join(rest, sep);
        assert s == [s[0]] + s[1..];
      } else {
        var parts := [[s[0]] + rest[0]] + rest[1..];
        assert Split(s, sep) == parts;
        if |rest| == 1 {
          assert parts == [[s[0]] + rest[0]];
          assert Join(rest, sep) == rest[0];
        } else {
          assert parts[1..] == rest[1..];
          assert Join(rest, sep) == rest[0] + [sep] + Join(rest[1..], sep);
        }
        assert s == [s[0]] + s[1..];
      }
    }
  }

  /** A separator-free word in front of a string extends the string's first token. */
  lemma {:induction false} SplitPrefix(w: string, t: string, sep: char)
    requires sep !in w
    ensures Split(w + t, sep) == [w + Split(t, sep)[0]] + Split(t, sep)[1..]
  {
    if |w| > 0 {
      SplitPrefix(w[1..], t, sep);
      assert (w + t)[1..] == w[1..] + t;
      assert (w + t)[0] == w[0];
      assert [w[0]] + (w[1..] + Split(t, sep)[0]) == w + Split(t, sep)[0];
    } else {
      var ts := Split(t, sep);
      assert w + t == t;
      assert w + ts[0] == ts[0];
      assert ts == [ts[0]] + ts[1..];
    }
  }

  /** Splitting a join of separator-free parts recovers the parts exactly. */
  lemma {:induction false} SplitJoin(parts: seq<string>, sep: char)
    requires |parts| > 0
    requires forall i :: 0 <= i < |parts| ==> sep !in parts[i]
    ensures Split(Join(parts, sep), sep) == parts
  {
    if |parts| == 1 {
      SplitPrefix(parts[0], "", sep);
      assert Split("", sep) == [""];
      assert parts[0] + "" == parts[0];
    } else {
      var tail := Join(parts[1..], sep);
      SplitJoin(parts[1..], sep);
      SplitPrefix(parts[0], [sep] + tail, sep);
      assert parts[0] + [sep] + tail == parts[0] + ([sep] + tail);
      assert ([sep] + tail)[1..] == tail;
      assert Split([sep] + tail, sep) == [""] + parts[1..];
      assert Join(parts, sep) == parts[0] + ([sep] + tail);
      assert parts[0] + "" == parts[0];
      assert parts == [parts[0]] + parts[1..];
    }
  }

  /** Splitting a string that starts with `c`: a separator opens a new token, anything else extends the first. */
  lemma SplitCons(c: char, t: string, sep: char)
    ensures Split([c] + t, sep) ==
      if c == sep then [""] + Split(t, sep)
      else [[c] + Split(t, sep)[0]] + Split(t, sep)[1..]
  {
    assert ([c] + t)[1..] == t;
  }

  /** Extending the first token of a list commutes with appending more tokens. */
  lemma ExtendFirstAppend(c: char, ra: seq<string>, rb: seq<string>)
    requires |ra| > 0
    ensures [[c] + (ra + rb)[0]] + (ra + rb)[1..] == ([[c] + ra[0]] + ra[1..]) + rb
  {
    assert (ra + rb)[0] == ra[0];
    assert (ra + rb)[1..] == ra[1..] + rb;
  }

  /** Splitting around one separator splits each side independently. */
  lemma {:induction false} SplitAround(a: string, b: string, sep: char)
    ensures Split(a + [sep] + b, sep) == Split(a, sep) + Split(b, sep)
  {
    if |a| == 0 {
      assert a + [sep] + b == [sep] + b;
      SplitCons(sep, b, sep);
    } else {
      var c, tail := a[0], a[1..];
      var w := tail + [sep] + b;
      assert a == [c] + tail;
      assert a + [sep] + b == [c] + w;
      SplitAround(tail, b, sep);
      SplitCons(c, w, sep);
      SplitCons(c, tail, sep);
      if c != sep {
        ExtendFirstAppend(c, Split(tail, sep), Split(b, sep));
      }
    }
  }

  /** Every occurrence of `sep` in `s` stands strictly inside `s`, between two non-separators. */
  predicate SingleSeparated(s: string, sep: char) {
    forall i :: 0 <= i < |s| && s[i] == sep ==> 0 < i < |s| - 1 && s[i - 1] != sep && s[i + 1] != sep
  }

  /** Every character of `s` is in `alphabet`. */
  predicate Over(s: string, alphabet: set<char>) {
    forall i :: 0 <= i < |s| ==> s[i] in alphabet
  }

  /**
   Joining non-empty, separator-free parts written over `alphabet` gives a
   string over `alphabet` plus the separator, with no leading, trailing or
   doubled separator.
   */
  lemma {:induction false} JoinShape(parts: seq<string>, sep: char, alphabet: set<char>)
    requires forall i :: 0 <= i < |parts| ==> |parts[i]| > 0 && sep !in parts[i] && Over(parts[i], alphabet)
    ensures Over(Join(parts, sep), alphabet + {sep})
    ensures SingleSeparated(Join(parts, sep), sep)
    ensures |parts| > 0 ==> |Join(parts, sep)| > 0
  {
    if |parts| > 1 {
      JoinShape(parts[1..], sep, alphabet);
      var head, tail := parts[0], Join(parts[1..], sep);
      var r := head + [sep] + tail;
      assert Join(parts, sep) == r;
      forall i | 0 <= i < |r| && r[i] == sep
        ensures 0 < i < |r| - 1 && r[i - 1] != sep && r[i + 1] != sep
      {
        if i < |head| {
          assert false;
        } else if i == |head| {
          assert r[i - 1] == head[|head| - 1];
          assert r[i + 1] == tail[0];
        } else if i == |head| + 1 {
          assert false;
        } else {
          assert r[i] == tail[i - |head| - 1];
          assert r[i + 1] == tail[i - |head|];
          assert r[i - 1] == tail[i - |head| - 2];
        }
      }
      forall i | 0 <= i < |r|
        ensures r[i] in alphabet + {sep}
      {
        if i < |head| {
          assert r[i] == head[i];
        } else if i > |head| {
          assert r[i] == tail[i - |head| - 1];
        }
      }
    } else if |parts| == 1 {
      assert Join(parts, sep) == parts[0];
    }
  }
}
