/**
 Embellished functions from the C++ Kleisli chapter: negation that writes
 a log (first through a global, then with the log threaded explicitly, then
 returning only its own log entry), upper-casing a string, and splitting a
 string into words on whitespace.

 Characters follow the C locale: `isspace` holds of space, tab, newline,
 vertical tab, form feed and carriage return, and `toupper` changes only
 the letters a to z.
 */
module Logging {

  /** The message every negation logs. */
  const NotSo: string := "Not so! "

  /** The global `logger` string, as explicit state. */
  datatype Logger = Logger(text: string)

  /** `impure_negate`: negates and appends to the global log. */
  function ImpureNegate(logger: Logger, b: bool): (r: (bool, Logger))
    ensures r.0 != b
    ensures |r.1.text| == |logger.text| + |NotSo|
    ensures r.1.text[..|logger.text|] == logger.text
    ensures r.1.text[|logger.text|..] == NotSo
  {
    (!b, Logger(logger.text + NotSo))
  }

  /** `negate`: the log is passed in and the extended log is returned. */
  function Negate(b: bool, log: string): (r: (bool, string))
    ensures r.0 != b
    ensures |r.1| == |log| + |NotSo|
    ensures r.1[..|log|] == log && r.1[|log|..] == NotSo
  {
    (!b, log + NotSo)
  }

  /** `negate2`: returns only its own log entry, whatever was logged
      before. */
  function Negate2(b: bool): (r: (bool, string))
    ensures r.0 != b
    ensures r.1 == NotSo
  {
    (!b, NotSo)
  }

  /** Threading the global through the impure version computes the same as
      the pure version with an explicit log. */
  lemma ImpureNegateIsNegate(logger: Logger, b: bool)
    ensures ImpureNegate(logger, b).0 == Negate(b, logger.text).0
    ensures ImpureNegate(logger, b).1.text == Negate(b, logger.text).1
  {
  }

  /** Appending the entry `negate2` returns to an earlier log gives exactly
      what `negate` produces from that log. */
  lemma Negate2AggregatesToNegate(b: bool, log: string)
    ensures Negate(b, log) == (Negate2(b).0, log + Negate2(b).1)
  {
  }

  /** Negating twice restores the value and logs the message twice. */
  lemma NegateTwice(b: bool, log: string)
    ensures var (b1, log1) := Negate(b, log);
            var (b2, log2) := Negate(b1, log1);
            b2 == b && log2 == log + NotSo + NotSo
  {
  }

  /** `std::isspace` in the C locale: the space and the control characters
      tab through carriage return (codes 9 to 13). */
  predicate IsSpace(c: char): (r: bool)
    ensures r <==> c == ' ' || 9 <= c as int <= 13
  {
    c == ' ' || c == '\t' || c == '\n' || c == '\r' || c == '\U{B}' || c == '\U{C}'
  }

  predicate IsLower(c: char)
  {
    'a' <= c <= 'z'
  }

  /** `std::toupper` in the C locale. */
  function UpperChar(c: char): (u: char)
    ensures !IsLower(u)
    ensures IsLower(c) ==> u as int == c as int - 32
    ensures !IsLower(c) ==> u == c
  {
    if IsLower(c) then (c as int - 32) as char else c
  }

  /** The pointwise upper-casing of a whole string. */
  function Upper(s: string): (r: string)
    ensures |r| == |s|
    ensures forall i :: 0 <= i < |s| ==> r[i] == UpperChar(s[i])
    ensures forall i :: 0 <= i < |s| ==> !IsLower(r[i])
  {
    seq(|s|, i requires 0 <= i < |s| => UpperChar(s[i]))
  }

  /** `toUpper`: transforms the string one character at a time. */
  method ToUpper(s: string) returns (result: string)
    ensures |result| == |s|
    ensures forall i :: 0 <= i < |s| ==> result[i] == UpperChar(s[i])
    ensures result == Upper(s)
  {
    result := "";
    var i := 0;
    while i < |s|
      invariant 0 <= i <= |s|
      invariant |result| == i
      invariant forall k :: 0 <= k < i ==> result[k] == UpperChar(s[k])
    {
      result := result + [UpperChar(s[i])];
      i := i + 1;
    }
  }

  /** Upper-casing leaves no lower-case letter, changes only lower-case
      letters, and is idempotent. */
  lemma UpperIsIdempotent(s: string)
    ensures forall i :: 0 <= i < |s| ==> !IsLower(Upper(s)[i])
    ensures forall i :: 0 <= i < |s| && !IsLower(s[i]) ==> Upper(s)[i] == s[i]
    ensures Upper(Upper(s)) == Upper(s)
  {
  }

  /** The whitespace characters of `s`, in order. */
  function Spaces(s: string): (r: string)
    ensures forall i :: 0 <= i < |r| ==> IsSpace(r[i])
  {
    if |s| == 0 then []
    else Spaces(s[..|s| - 1]) + (if IsSpace(s[|s| - 1]) then [s[|s| - 1]] else [])
  }

  /** The non-whitespace characters of `s`, in order. */
  function Letters(s: string): (r: string)
  {
    if |s| == 0 then []
    else Letters(s[..|s| - 1]) + (if IsSpace(s[|s| - 1]) then [] else [s[|s| - 1]])
  }

  /** The words of `s` as the loop builds them: start with one empty word;
      whitespace opens a new word, any other character extends the last
      one. */
  function WordsOf(s: string): (ws: seq<string>)
    ensures |ws| >= 1
  {
    if |s| == 0 then [""]
    else
      var ws := WordsOf(s[..|s| - 1]);
      var c := s[|s| - 1];
      if IsSpace(c) then ws + [""]
      else ws[..|ws| - 1] + [ws[|ws| - 1] + [c]]
  }

  /** The concatenation of a list of words. */
  function Concat(ws: seq<string>): string
  {
    if |ws| == 0 then [] else Concat(ws[..|ws| - 1]) + ws[|ws| - 1]
  }

  /** Puts the separators `seps` back between consecutive words. */
  function Interleave(ws: seq<string>, seps: string): string
    requires |ws| == |seps| + 1
  {
    if |seps| == 0 then ws[0]
    else Interleave(ws[..|ws| - 1], seps[..|seps| - 1]) + [seps[|seps| - 1]] + ws[|ws| - 1]
  }

  /** No word contains whitespace. */
  ghost predicate NoSpaces(ws: seq<string>)
  {
    forall i, j :: 0 <= i < |ws| && 0 <= j < |ws[i]| ==> !IsSpace(ws[i][j])
  }

  /** `WordsOf` of a prefix one character longer. */
  lemma WordsOfStep(s: string, i: nat)
    requires i < |s|
    ensures var ws := WordsOf(s[..i]);
            WordsOf(s[..i + 1]) == if IsSpace(s[i]) then ws + [""] else ws[..|ws| - 1] + [ws[|ws| - 1] + [s[i]]]
  {
    assert s[..i + 1][..i] == s[..i];
  }

  /** Splitting yields one more word than there are whitespace characters. */
  lemma {:induction false} WordsOfCount(s: string)
    ensures |WordsOf(s)| == |Spaces(s)| + 1
    decreases |s|
  {
    if |s| > 0 {
      WordsOfCount(s[..|s| - 1]);
    }
  }

  /** No word contains whitespace. */
  lemma {:induction false} WordsOfHaveNoSpaces(s: string)
    ensures NoSpaces(WordsOf(s))
    decreases |s|
  {
    if |s| > 0 {
      WordsOfHaveNoSpaces(s[..|s| - 1]);
    }
  }

  /** The words alone spell the non-whitespace characters of the input. */
  lemma {:induction false} WordsOfConcat(s: string)
    ensures Concat(WordsOf(s)) == Letters(s)
    decreases |s|
  {
    if |s| > 0 {
      var ws := WordsOf(s[..|s| - 1]);
      var c := s[|s| - 1];
      WordsOfConcat(s[..|s| - 1]);
      if IsSpace(c) {
        var ws' := ws + [""];
        assert ws'[..|ws'| - 1] == ws;
      } else {
        var ws' := ws[..|ws| - 1] + [ws[|ws| - 1] + [c]];
        assert ws'[..|ws'| - 1] == ws[..|ws| - 1];
        assert Concat(ws) == Concat(ws[..|ws| - 1]) + ws[|ws| - 1];
      }
    }
  }

  /** Putting the whitespace back between the words rebuilds the input, so
      splitting loses nothing. */
  lemma {:induction false} WordsOfInterleave(s: string)
    ensures |WordsOf(s)| == |Spaces(s)| + 1
    ensures Interleave(WordsOf(s), Spaces(s)) == s
    decreases |s|
  {
    WordsOfCount(s);
    if |s| > 0 {
      var init := s[..|s| - 1];
      var c := s[|s| - 1];
      WordsOfInterleave(init);
      assert s == init + [c];
      if IsSpace(c) {
        InterleaveNewWord(WordsOf(init), Spaces(init), c);
      } else {
        assert Spaces(s) == Spaces(init);
        InterleaveExtendWord(WordsOf(init), Spaces(init), c);
      }
    }
  }

  /** A separator followed by an empty word adds just the separator. */
  lemma InterleaveNewWord(ws: seq<string>, seps: string, c: char)
    requires |ws| == |seps| + 1
    ensures Interleave(ws + [""], seps + [c]) == Interleave(ws, seps) + [c]
  {
    var ws' := ws + [""];
    var seps' := seps + [c];
    assert ws'[..|ws'| - 1] == ws;
    assert seps'[..|seps'| - 1] == seps;
  }

  /** Extending the last word extends the interleaving by the same
      character. */
  lemma InterleaveExtendWord(ws: seq<string>, seps: string, c: char)
    requires |ws| == |seps| + 1
    ensures Interleave(ws[..|ws| - 1] + [ws[|ws| - 1] + [c]], seps) == Interleave(ws, seps) + [c]
  {
    var ws' := ws[..|ws| - 1] + [ws[|ws| - 1] + [c]];
    if |seps| > 0 {
      assert ws'[..|ws'| - 1] == ws[..|ws| - 1];
    }
  }

  /** `words`: the loop over the characters of `s`. */
  method Words(s: string) returns (result: seq<string>)
    ensures result == WordsOf(s)
    ensures |result| >= 1
    ensures |result| == |Spaces(s)| + 1
    ensures NoSpaces(result)
    ensures Concat(result) == Letters(s)
    ensures Interleave(result, Spaces(s)) == s
  {
    result := [""];
    var i := 0;
    while i < |s|
      invariant 0 <= i <= |s|
      invariant result == WordsOf(s[..i])
    {
      assert s[..i + 1][..i] == s[..i];
      if IsSpace(s[i]) {
        result := result + [""];
      } else {
        result := result[..|result| - 1] + [result[|result| - 1] + [s[i]]];
      }
      i := i + 1;
    }
    assert s[..i] == s;
    WordsOfCount(s);
    WordsOfHaveNoSpaces(s);
    WordsOfConcat(s);
    WordsOfInterleave(s);
  }

  /** `toWords` hands over to `words`. */
  method ToWords(s: string) returns (result: seq<string>)
    ensures result == WordsOf(s)
    ensures |result| >= 1
    ensures |result| == |Spaces(s)| + 1
    ensures NoSpaces(result)
    ensures Concat(result) == Letters(s)
    ensures Interleave(result, Spaces(s)) == s
  {
    result := Words(s);
  }

  /** Characters other than whitespace only extend the last word. */
  lemma {:induction false} WordsOfAppendLetters(a: string, b: string)
    requires forall j :: 0 <= j < |b| ==> !IsSpace(b[j])
    ensures var ws := WordsOf(a);
            WordsOf(a + b) == ws[..|ws| - 1] + [ws[|ws| - 1] + b]
    decreases |b|
  {
    var ws := WordsOf(a);
    if |b| == 0 {
      assert a + b == a;
      assert ws[|ws| - 1] + b == ws[|ws| - 1];
      assert ws[..|ws| - 1] + [ws[|ws| - 1]] == ws;
    } else {
      var b' := b[..|b| - 1];
      var d := b[|b| - 1];
      WordsOfAppendLetters(a, b');
      assert (a + b)[..|a + b| - 1] == a + b';
      var ws' := ws[..|ws| - 1] + [ws[|ws| - 1] + b'];
      assert ws'[..|ws'| - 1] == ws[..|ws| - 1];
      assert ws[|ws| - 1] + b' + [d] == ws[|ws| - 1] + b;
    }
  }

  /** Two space-free words around one whitespace character split back into
      those two words. */
  lemma WordsOfTwoWords(a: string, c: char, b: string)
    requires forall j :: 0 <= j < |a| ==> !IsSpace(a[j])
    requires forall j :: 0 <= j < |b| ==> !IsSpace(b[j])
    requires IsSpace(c)
    ensures WordsOf(a + [c] + b) == [a, b]
  {
    assert WordsOf(a) == [a] by {
      WordsOfAppendLetters([], a);
      assert [] + a == a;
      assert WordsOf([]) == [""];
    }
    assert WordsOf(a + [c]) == [a, ""] by {
      WordsOfStep(a + [c], |a|);
      assert (a + [c])[..|a|] == a && (a + [c])[..|a| + 1] == a + [c];
    }
    WordsOfAppendLetters(a + [c], b);
    assert "" + b == b;
  }

  /** "hello world" splits into "hello" and "world". */
  lemma HelloWorldWords()
    ensures WordsOf("hello world") == ["hello", "world"]
  {
    WordsOfTwoWords("hello", ' ', "world");
    assert "hello" + [' '] + "world" == "hello world";
  }
}
