/**
 * The few Python and .NET string operations the pipeline relies on, written out
 * over `seq<char>`: `sep.join(parts)`, `s.split(sep)`, the argument-less
 * `s.split()`, `str(n)` for integers, `s.rstrip('\n')`, `s.startswith(p)` and
 * ASCII lower-casing.
 */
module Strings {
  import opened Wrappers

  // ---------------------------------------------------------------------------
  // `sep.join(parts)` (Python) and `string.Join(sep, parts)` (.NET)
  // ---------------------------------------------------------------------------

  function Join(sep: string, parts: seq<string>): string
    decreases |parts|
  {
    if |parts| == 0 then ""
    else if |parts| == 1 then parts[0]
    else parts[0] + sep + Join(sep, parts[1..])
  }

  /** Concatenation of all parts with no separator: `"".join(parts)`. */
  function Concat(parts: seq<string>): string
    decreases |parts|
  {
    if |parts| == 0 then "" else parts[0] + Concat(parts[1..])
  }

  lemma {:induction false} ConcatAppend(a: seq<string>, b: seq<string>)
    ensures Concat(a + b) == Concat(a) + Concat(b)
    decreases |a|
  {
    if |a| == 0 {
      assert a + b == b;
    } else {
      assert (a + b)[1..] == a[1..] + b;
      ConcatAppend(a[1..], b);
    }
  }

  /** Joining with a separator puts exactly one separator between two consecutive parts. */
  lemma {:induction false} JoinCons(sep: string, p: string, ps: seq<string>)
    requires |ps| > 0
    ensures Join(sep, [p] + ps) == p + sep + Join(sep, ps)
  {
    assert ([p] + ps)[1..] == ps;
  }

  /** A character the separator does not contain occurs in the joined string as often as in all parts together. */
  lemma {:induction false} JoinCount(sep: string, parts: seq<string>, c: char)
    requires c !in sep
    ensures multiset(Join(sep, parts))[c] == CountInAll(parts, c)
    decreases |parts|
  {
    if |parts| > 1 {
      JoinCount(sep, parts[1..], c);
      var rest := Join(sep, parts[1..]);
      assert Join(sep, parts) == parts[0] + sep + rest;
      assert multiset(parts[0] + sep + rest) == multiset(parts[0]) + multiset(sep) + multiset(rest);
    } else if |parts| == 1 {
      assert parts[1..] == [];
    }
  }

  /** The total number of occurrences of `c` over all parts. */
  function CountInAll(parts: seq<string>, c: char): nat
    decreases |parts|
  {
    if |parts| == 0 then 0 else multiset(parts[0])[c] + CountInAll(parts[1..], c)
  }

  lemma {:induction false} CountInAllZero(parts: seq<string>, c: char)
    ensures CountInAll(parts, c) == 0 <==> forall i :: 0 <= i < |parts| ==> c !in parts[i]
    decreases |parts|
  {
    if |parts| > 0 {
      CountInAllZero(parts[1..], c);
      assert forall i :: 1 <= i < |parts| ==> parts[i] == parts[1..][i - 1];
    }
  }

  // ---------------------------------------------------------------------------
  // `s.split(sep)` with a non-empty separator (Python)
  // ---------------------------------------------------------------------------

  /**
   * Python's `s.split(sep)`: scans left to right and cuts at every
   * non-overlapping occurrence of `sep`; the result always has at least one part.
   */
  function Split(s: string, sep: string): (r: seq<string>)
    requires |sep| > 0
    ensures |r| >= 1
    decreases |s|
  {
    if |s| < |sep| then [s]
    else if s[..|sep|] == sep then [""] + Split(s[|sep|..], sep)
    else
      var rest := Split(s[1..], sep);
      [[s[0]] + rest[0]] + rest[1..]
  }

  /** Splitting and joining again with the same separator gives back the string. */
  lemma {:induction false} JoinSplit(s: string, sep: string)
    requires |sep| > 0
    ensures Join(sep, Split(s, sep)) == s
    decreases |s|
  {
    if |s| < |sep| {
    } else if s[..|sep|] == sep {
      JoinSplit(s[|sep|..], sep);
      assert s == sep + s[|sep|..];
      JoinSplitAtSep(sep, s[|sep|..]);
    } else {
      JoinSplit(s[1..], sep);
      JoinSplitOneChar(s, sep);
    }
  }

  /** The step of `JoinSplit` where the string starts with the separator. */
  lemma JoinSplitAtSep(sep: string, tail: string)
    requires |sep| > 0
    requires Join(sep, Split(tail, sep)) == tail
    ensures Join(sep, Split(sep + tail, sep)) == sep + tail
  {
    var s := sep + tail;
    assert s[..|sep|] == sep;
    assert s[|sep|..] == tail;
    var rest := Split(tail, sep);
    assert Split(s, sep) == [""] + rest;
    JoinEmptyFirst(sep, rest);
  }

  /** An empty first part leaves just the separator in front of the rest. */
  lemma JoinEmptyFirst(sep: string, parts: seq<string>)
    requires |parts| >= 1
    ensures Join(sep, [""] + parts) == sep + Join(sep, parts)
  {
    JoinCons(sep, "", parts);
    assert "" + sep == sep;
  }

  /** The step of `JoinSplit` where `s` starts with a character that is not the start of a separator. */
  lemma JoinSplitOneChar(s: string, sep: string)
    requires |sep| > 0 && |s| >= |sep| && s[..|sep|] != sep
    requires Join(sep, Split(s[1..], sep)) == s[1..]
    ensures Join(sep, Split(s, sep)) == s
  {
    var tail := s[1..];
    var rest := Split(tail, sep);
    assert Split(s, sep) == [[s[0]] + rest[0]] + rest[1..];
    JoinFirstChar(sep, s[0], rest);
    assert s == [s[0]] + tail;
  }

  /** A character put in front of the first part ends up in front of the joined string. */
  lemma JoinFirstChar(sep: string, c: char, parts: seq<string>)
    requires |parts| >= 1
    ensures Join(sep, [[c] + parts[0]] + parts[1..]) == [c] + Join(sep, parts)
  {
    var first := [c] + parts[0];
    if |parts| > 1 {
      var j := Join(sep, parts[1..]);
      JoinCons(sep, first, parts[1..]);
      assert Join(sep, parts) == parts[0] + sep + j;
      assert first + sep + j == [c] + (parts[0] + sep + j);
    } else {
      assert [first] + parts[1..] == [first];
    }
  }

  /** `sep` occurs in `s` at position `i`. */
  predicate SepAt(s: string, i: int, sep: string)
  {
    0 <= i && i + |sep| <= |s| && s[i..i + |sep|] == sep
  }

  lemma SepAtTail(s: string, i: nat, sep: string)
    requires |s| > 0
    ensures SepAt(s[1..], i, sep) == SepAt(s, i + 1, sep)
  {
    if i + 1 + |sep| <= |s| {
      assert s[1..][i..i + |sep|] == s[i + 1..i + 1 + |sep|];
    }
  }

  /** `sep` occurs in `p + sep` only at its end. */
  predicate NoEarlySep(p: string, sep: string)
  {
    forall i :: 0 <= i < |p| ==> !SepAt(p + sep, i, sep)
  }

  /** `sep` does not occur in `p` at all. */
  predicate NoSep(p: string, sep: string)
  {
    forall i :: 0 <= i <= |p| ==> !SepAt(p, i, sep)
  }

  lemma {:induction false} SplitNoSep(p: string, sep: string)
    requires |sep| > 0 && NoSep(p, sep)
    ensures Split(p, sep) == [p]
    decreases |p|
  {
    if |p| >= |sep| {
      assert !SepAt(p, 0, sep);
      assert NoSep(p[1..], sep) by {
        forall i | 0 <= i <= |p[1..]| ensures !SepAt(p[1..], i, sep) {
          SepAtTail(p, i, sep);
        }
      }
      SplitNoSep(p[1..], sep);
      assert [p[0]] + p[1..] == p;
    }
  }

  lemma {:induction false} SplitPrefix(p: string, sep: string, rest: string)
    requires |sep| > 0 && NoEarlySep(p, sep)
    ensures Split(p + sep + rest, sep) == [p] + Split(rest, sep)
    decreases |p|
  {
    var s := p + sep + rest;
    if |p| == 0 {
      assert s == sep + rest;
      assert s[..|sep|] == sep;
      assert s[|sep|..] == rest;
    } else {
      assert !SepAt(p + sep, 0, sep);
      assert s[..|sep|] == (p + sep)[0..|sep|];
      assert s[1..] == p[1..] + sep + rest;
      assert (p + sep)[1..] == p[1..] + sep;
      assert NoEarlySep(p[1..], sep) by {
        forall i | 0 <= i < |p[1..]| ensures !SepAt(p[1..] + sep, i, sep) {
          SepAtTail(p + sep, i, sep);
        }
      }
      SplitPrefix(p[1..], sep, rest);
      assert [p[0]] + p[1..] == p;
    }
  }

  /**
   * Splitting a joined list gives back the parts, provided the separator
   * occurs in no part (and does not start inside a part, running into the
   * separator that follows it).
   */
  lemma {:induction false} SplitJoin(parts: seq<string>, sep: string)
    requires |sep| > 0 && |parts| >= 1
    requires forall i :: 0 <= i < |parts| - 1 ==> NoEarlySep(parts[i], sep)
    requires NoSep(parts[|parts| - 1], sep)
    ensures Split(Join(sep, parts), sep) == parts
    decreases |parts|
  {
    if |parts| == 1 {
      SplitNoSep(parts[0], sep);
    } else {
      SplitJoin(parts[1..], sep);
      SplitPrefix(parts[0], sep, Join(sep, parts[1..]));
      assert [parts[0]] + parts[1..] == parts;
    }
  }

  /** For a one-character separator the side conditions are just "the character does not occur". */
  lemma CharFreeNoSep(p: string, c: char)
    requires c !in p
    ensures NoEarlySep(p, [c]) && NoSep(p, [c])
  {
    forall i | 0 <= i < |p| ensures !SepAt(p + [c], i, [c]) {
      assert (p + [c])[i..i + 1] == [p[i]];
    }
    forall i | 0 <= i <= |p| ensures !SepAt(p, i, [c]) {
      if i + 1 <= |p| { assert p[i..i + 1] == [p[i]]; }
    }
  }

  /** Splitting at one character undoes joining parts that do not contain it. */
  lemma SplitJoinChar(parts: seq<string>, c: char)
    requires |parts| >= 1 && forall i :: 0 <= i < |parts| ==> c !in parts[i]
    ensures Split(Join([c], parts), [c]) == parts
  {
    forall i | 0 <= i < |parts| ensures NoEarlySep(parts[i], [c]) && NoSep(parts[i], [c]) {
      CharFreeNoSep(parts[i], c);
    }
    SplitJoin(parts, [c]);
  }

  /** Joining parts of the same lengths gives strings of the same length. */
  lemma {:induction false} JoinSameLengths(sep: string, ps: seq<string>, qs: seq<string>)
    requires |ps| == |qs| && forall i :: 0 <= i < |ps| ==> |ps[i]| == |qs[i]|
    ensures |Join(sep, ps)| == |Join(sep, qs)|
    decreases |ps|
  {
    if |ps| > 1 {
      JoinSameLengths(sep, ps[1..], qs[1..]);
    }
  }

  /** No part of `s.split(c)` contains `c`. */
  lemma {:induction false} SplitPartsFree(s: string, c: char)
    ensures forall i :: 0 <= i < |Split(s, [c])| ==> c !in Split(s, [c])[i]
    decreases |s|
  {
    if |s| >= 1 {
      SplitPartsFree(s[1..], c);
      if s[..1] != [c] {
        assert s[0] != c;
        var rest := Split(s[1..], [c]);
        assert Split(s, [c]) == [[s[0]] + rest[0]] + rest[1..];
        forall i | 0 <= i < |Split(s, [c])| ensures c !in Split(s, [c])[i] {
          if i > 0 { assert Split(s, [c])[i] == rest[i]; }
        }
      } else {
        assert s[..1] == [c];
      }
    }
  }

  // ---------------------------------------------------------------------------
  // `s.split()` without argument (Python): cut at runs of whitespace
  // ---------------------------------------------------------------------------

  /** The characters Python's `str.isspace()` accepts, which `str.split()` cuts at. */
  predicate IsSpace(c: char)
  {
    c == ' ' || ('\t' <= c <= '\r') || ('\U{1C}' <= c <= '\U{1F}') || c == '\U{85}' || c == '\U{A0}'
    || c == '\U{1680}' || ('\U{2000}' <= c <= '\U{200A}') || c == '\U{2028}' || c == '\U{2029}'
    || c == '\U{202F}' || c == '\U{205F}' || c == '\U{3000}'
  }

  predicate IsBlank(s: string)
  {
    forall i :: 0 <= i < |s| ==> IsSpace(s[i])
  }

  predicate HasNoSpace(s: string)
  {
    forall i :: 0 <= i < |s| ==> !IsSpace(s[i])
  }

  /** The length of the word at the front of `s`: up to the first whitespace character. */
  function WordEnd(s: string): (k: nat)
    ensures k <= |s| && HasNoSpace(s[..k])
    ensures k < |s| ==> IsSpace(s[k])
    decreases |s|
  {
    if s == [] || IsSpace(s[0]) then 0 else 1 + WordEnd(s[1..])
  }

  /** Python's `s.split()`: the maximal runs of non-whitespace characters, in order. */
  function Words(s: string): (ws: seq<string>)
    ensures forall i :: 0 <= i < |ws| ==> |ws[i]| > 0 && HasNoSpace(ws[i])
    decreases |s|
  {
    if s == [] then []
    else if IsSpace(s[0]) then Words(s[1..])
    else
      var k := WordEnd(s);
      [s[..k]] + Words(s[k..])
  }

  /** Leading whitespace is skipped. */
  lemma {:induction false} WordsSkipBlank(g: string, x: string)
    requires IsBlank(g)
    ensures Words(g + x) == Words(x)
    decreases |g|
  {
    if |g| > 0 {
      assert (g + x)[1..] == g[1..] + x;
      WordsSkipBlank(g[1..], x);
    } else {
      assert g + x == x;
    }
  }

  lemma {:induction false} WordEndOf(w: string, x: string)
    requires HasNoSpace(w)
    requires x == [] || IsSpace(x[0])
    ensures WordEnd(w + x) == |w|
    decreases |w|
  {
    if |w| > 0 {
      assert (w + x)[1..] == w[1..] + x;
      WordEndOf(w[1..], x);
    } else {
      assert w + x == x;
    }
  }

  /** A word followed by whitespace (or nothing) is one word of the split. */
  lemma WordsWord(w: string, x: string)
    requires |w| > 0 && HasNoSpace(w)
    requires x == [] || IsSpace(x[0])
    ensures Words(w + x) == [w] + Words(x)
  {
    WordEndOf(w, x);
    assert (w + x)[..|w|] == w;
    assert (w + x)[|w|..] == x;
  }

  /** A string made of whitespace only splits into no words. */
  lemma BlankHasNoWords(g: string)
    requires IsBlank(g)
    ensures Words(g) == []
  {
    WordsSkipBlank(g, "");
    assert g + "" == g;
  }

  /**
   * `ws` interleaved with the whitespace gaps `gaps`: gaps[0] + ws[0] + gaps[1] + ... + ws[n-1] + gaps[n].
   */
  function Spaced(ws: seq<string>, gaps: seq<string>): string
    requires |gaps| == |ws| + 1
    decreases |ws|
  {
    if |ws| == 0 then gaps[0] else gaps[0] + ws[0] + Spaced(ws[1..], gaps[1..])
  }

  /**
   * Whatever whitespace separates the words (and however much surrounds them),
   * `split()` finds exactly those words.
   */
  lemma {:induction false} WordsOfSpaced(ws: seq<string>, gaps: seq<string>)
    requires |gaps| == |ws| + 1
    requires forall i :: 0 <= i < |ws| ==> |ws[i]| > 0 && HasNoSpace(ws[i])
    requires forall i :: 0 <= i < |gaps| ==> IsBlank(gaps[i])
    requires forall i :: 0 < i < |ws| ==> |gaps[i]| > 0
    ensures Words(Spaced(ws, gaps)) == ws
    decreases |ws|
  {
    if |ws| == 0 {
      BlankHasNoWords(gaps[0]);
    } else {
      var rest := Spaced(ws[1..], gaps[1..]);
      WordsOfSpaced(ws[1..], gaps[1..]);
      if |ws| > 1 {
        assert rest == gaps[1] + ws[1] + Spaced(ws[2..], gaps[2..]);
        assert rest[0] == gaps[1][0];
      } else {
        assert rest == gaps[1];
      }
      assert gaps[0] + ws[0] + rest == gaps[0] + (ws[0] + rest);
      WordsSkipBlank(gaps[0], ws[0] + rest);
      WordsWord(ws[0], rest);
    }
  }

  /** Words joined by single spaces split back into the same words. */
  lemma {:induction false} WordsOfJoin(ws: seq<string>)
    requires forall i :: 0 <= i < |ws| ==> |ws[i]| > 0 && HasNoSpace(ws[i])
    ensures Words(Join(" ", ws)) == ws
    decreases |ws|
  {
    if |ws| == 0 {
    } else if |ws| == 1 {
      WordsWord(ws[0], "");
      assert ws[0] + "" == ws[0];
    } else {
      WordsOfJoin(ws[1..]);
      var rest := Join(" ", ws[1..]);
      assert Join(" ", ws) == ws[0] + (" " + rest);
      WordsWord(ws[0], " " + rest);
      WordsSkipBlank(" ", rest);
    }
  }

  // ---------------------------------------------------------------------------
  // `str(n)` for integers and its inverse
  // ---------------------------------------------------------------------------

  function DigitChar(d: nat): (c: char)
    requires d < 10
    ensures '0' <= c <= '9'
  {
    "0123456789"[d]
  }

  predicate IsDigit(c: char)
  {
    '0' <= c <= '9'
  }

  predicate AllDigits(s: string)
  {
    forall i :: 0 <= i < |s| ==> IsDigit(s[i])
  }

  /** The decimal numeral of `n`, without leading zeros. */
  function NatToString(n: nat): (s: string)
    ensures |s| > 0 && AllDigits(s)
    decreases n
  {
    if n < 10 then [DigitChar(n)] else NatToString(n / 10) + [DigitChar(n % 10)]
  }

  /** Python's `str(i)` for an `int`: a minus sign for negative values. */
  function IntToString(i: int): (s: string)
    ensures |s| > 0
    ensures forall k :: 0 <= k < |s| ==> IsDigit(s[k]) || (k == 0 && s[k] == '-')
  {
    if i < 0 then "-" + NatToString(-i) else NatToString(i)
  }

  /** The value of a string of decimal digits. */
  function DigitsValue(s: string): nat
    requires AllDigits(s)
    decreases |s|
  {
    if s == [] then 0 else DigitsValue(s[..|s| - 1]) * 10 + (s[|s| - 1] as int - '0' as int)
  }

  /** Reads back an optional minus sign and a non-empty run of digits; anything else fails. */
  function ParseInt(s: string): Option<int>
  {
    if |s| > 1 && s[0] == '-' && AllDigits(s[1..]) then Some(0 - DigitsValue(s[1..]))
    else if |s| > 0 && AllDigits(s) then Some(DigitsValue(s))
    else None
  }

  lemma DigitCharValue(d: nat)
    requires d < 10
    ensures DigitChar(d) as int - '0' as int == d
  {
  }

  lemma {:induction false} NatToStringRoundTrip(n: nat)
    ensures DigitsValue(NatToString(n)) == n
    decreases n
  {
    DigitCharValue(n % 10);
    if n >= 10 {
      NatToStringRoundTrip(n / 10);
      var s := NatToString(n);
      assert s[..|s| - 1] == NatToString(n / 10);
    } else {
      assert [DigitChar(n)][..0] == [];
    }
  }

  /** `str` on integers is inverted by `ParseInt`. */
  lemma IntToStringRoundTrip(i: int)
    ensures ParseInt(IntToString(i)) == Some(i)
  {
    if i < 0 {
      NatToStringRoundTrip(-i);
      assert IntToString(i)[1..] == NatToString(-i);
    } else {
      NatToStringRoundTrip(i);
      assert IntToString(i)[0] != '-';
    }
  }

  /** Distinct numbers have distinct numerals. */
  lemma NatToStringInjective(a: nat, b: nat)
    requires NatToString(a) == NatToString(b)
    ensures a == b
  {
    NatToStringRoundTrip(a);
    NatToStringRoundTrip(b);
  }

  /** The one-character strings of `s`: what Python's `list.extend(s)` adds for a string `s`. */
  function Chars(s: string): (r: seq<string>)
    ensures |r| == |s| && forall i :: 0 <= i < |s| ==> r[i] == [s[i]]
  {
    seq(|s|, i requires 0 <= i < |s| => [s[i]])
  }

  lemma {:induction false} ConcatChars(s: string)
    ensures Concat(Chars(s)) == s
    decreases |s|
  {
    if |s| > 0 {
      assert Chars(s)[1..] == Chars(s[1..]);
      ConcatChars(s[1..]);
      assert s == [s[0]] + s[1..];
    }
  }

  // ---------------------------------------------------------------------------
  // Small predicates and transformations
  // ---------------------------------------------------------------------------

  predicate StartsWith(s: string, prefix: string)
  {
    |prefix| <= |s| && s[..|prefix|] == prefix
  }

  /** Python's `s.rstrip('\n')`: drops every trailing newline character. */
  function RStripNewlines(s: string): (r: string)
    ensures |r| <= |s| && r == s[..|r|]
    ensures r == [] || r[|r| - 1] != '\n'
    ensures forall i :: |r| <= i < |s| ==> s[i] == '\n'
    decreases |s|
  {
    if s != [] && s[|s| - 1] == '\n' then RStripNewlines(s[..|s| - 1]) else s
  }

  /** ASCII lower-casing of one character (Python's `str.lower` restricted to ASCII). */
  function LowerChar(c: char): char
  {
    if 'A' <= c <= 'Z' then (c as int + 32) as char else c
  }

  function Lower(s: string): (r: string)
    ensures |r| == |s|
    ensures forall i :: 0 <= i < |s| ==> r[i] == LowerChar(s[i])
  {
    seq(|s|, i requires 0 <= i < |s| => LowerChar(s[i]))
  }
}
