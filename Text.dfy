/** The text normaliser `clean_text` of src/utils.py, together with the pieces of
    Python's `str` it is built from: `strip()`, a one-character `replace`, and the
    substring test `t in s` that the crawler uses on page text. */
module Text {

  /** Python's `str.isspace` on one character: exactly the characters that
      `str.strip()` with no argument removes. */
  predicate IsSpace(c: char) {
    var n := c as int;
    (0x09 <= n <= 0x0D) || (0x1C <= n <= 0x20) || n == 0x85 || n == 0xA0 || n == 0x1680
    || (0x2000 <= n <= 0x200A) || n == 0x2028 || n == 0x2029 || n == 0x202F || n == 0x205F
    || n == 0x3000
  }

  /** Neither end of `s` is whitespace. */
  predicate Trimmed(s: string) {
    s == [] || (!IsSpace(s[0]) && !IsSpace(s[|s| - 1]))
  }

  /** Python's substring test `t in s`. */
  predicate Contains(s: string, t: string) {
    exists i | 0 <= i <= |s| - |t| :: OccursAt(s, t, i)
  }

  predicate OccursAt(s: string, t: string, i: nat) {
    i + |t| <= |s| && s[i..i + |t|] == t
  }

  function StripLeading(s: string): string {
    if s != [] && IsSpace(s[0]) then StripLeading(s[1..]) else s
  }

  function StripTrailing(s: string): string {
    if s != [] && IsSpace(s[|s| - 1]) then StripTrailing(s[..|s| - 1]) else s
  }

  /** Python's `s.strip()`. */
  function Strip(s: string): string {
    StripTrailing(StripLeading(s))
  }

  /** Python's `s.replace(from, to)` for one-character `from` and `to`. */
  function ReplaceChar(s: string, from: char, to: char): string {
    if s == [] then [] else [if s[0] == from then to else s[0]] + ReplaceChar(s[1..], from, to)
  }

  /** Python's `s.replace(c, "")` for one character `c`. */
  function DeleteChar(s: string, c: char): string {
    if s == [] then [] else (if s[0] == c then [] else [s[0]]) + DeleteChar(s[1..], c)
  }

  /** `clean_text(text)`: strip, then turn every line feed into a space, then delete
      every carriage return. Interior runs of spaces and tabs are kept as they are. */
  function CleanText(text: string): string {
    if text == "" then "" else DeleteChar(ReplaceChar(Strip(text), '\n', ' '), '\r')
  }

  /** The cleaned text has no line breaks, no whitespace at either end, and is
      never longer than the input; the empty input gives the empty string. */
  lemma CleanTextShape(text: string)
    ensures '\n' !in CleanText(text) && '\r' !in CleanText(text)
    ensures Trimmed(CleanText(text))
    ensures |CleanText(text)| <= |text|
    ensures text == "" ==> CleanText(text) == ""
  {
    if text != "" {
      var t := Strip(text);
      var u := ReplaceChar(t, '\n', ' ');
      StripTrims(text);
      ReplaceCharAt(t, '\n', ' ');
      DeleteCharShape(u, '\r');
    }
  }

  // ---------------------------------------------------------------------------
  // strip

  lemma {:induction false} StripLeadingCut(s: string) returns (i: nat)
    ensures i <= |s| && StripLeading(s) == s[i..]
    ensures forall k :: 0 <= k < i ==> IsSpace(s[k])
    ensures i < |s| ==> !IsSpace(s[i])
  {
    if s != [] && IsSpace(s[0]) {
      var i' := StripLeadingCut(s[1..]);
      i := i' + 1;
      assert s[1..][i'..] == s[i..];
      forall k | 0 <= k < i ensures IsSpace(s[k]) {
        if k > 0 { assert s[k] == s[1..][k - 1]; }
      }
    } else {
      i := 0;
    }
  }

  lemma {:induction false} StripTrailingCut(s: string) returns (j: nat)
    ensures j <= |s| && StripTrailing(s) == s[..j]
    ensures forall k :: j <= k < |s| ==> IsSpace(s[k])
    ensures j > 0 ==> !IsSpace(s[j - 1])
  {
    if s != [] && IsSpace(s[|s| - 1]) {
      var p := s[..|s| - 1];
      j := StripTrailingCut(p);
      assert p[..j] == s[..j];
      forall k | j <= k < |s| ensures IsSpace(s[k]) {
        if k < |s| - 1 { assert s[k] == p[k]; }
      }
    } else {
      j := |s|;
      assert s[..j] == s;
    }
  }

  /** `strip()` cuts a whitespace-only prefix and suffix, and what remains is
      empty or starts and ends with a non-whitespace character. */
  lemma StripCut(s: string) returns (i: nat, j: nat)
    ensures i <= j <= |s| && Strip(s) == s[i..j]
    ensures forall k :: 0 <= k < i ==> IsSpace(s[k])
    ensures forall k :: j <= k < |s| ==> IsSpace(s[k])
    ensures i < j ==> !IsSpace(s[i]) && !IsSpace(s[j - 1])
  {
    i := StripLeadingCut(s);
    var t := s[i..];
    var j' := StripTrailingCut(t);
    j := i + j';
    assert t[..j'] == s[i..j];
    forall k | j <= k < |s| ensures IsSpace(s[k]) {
      assert s[k] == t[k - i];
    }
    if i < j {
      assert s[j - 1] == t[j' - 1];
    }
  }

  lemma StripTrims(s: string)
    ensures Trimmed(Strip(s)) && |Strip(s)| <= |s|
  {
    var i, j := StripCut(s);
  }

  /** Stripping a string that is already trimmed changes nothing. */
  lemma StripOfTrimmed(s: string)
    requires Trimmed(s)
    ensures Strip(s) == s
  {
    if s != [] {
      assert StripLeading(s) == s;
      assert StripTrailing(s) == s;
    }
  }

  // ---------------------------------------------------------------------------
  // replace

  lemma {:induction false} ReplaceCharAt(s: string, from: char, to: char)
    ensures |ReplaceChar(s, from, to)| == |s|
    ensures forall k :: 0 <= k < |s| ==> ReplaceChar(s, from, to)[k] == if s[k] == from then to else s[k]
  {
    if s != [] {
      ReplaceCharAt(s[1..], from, to);
    }
  }

  lemma {:induction false} DeleteCharShape(s: string, c: char)
    ensures |DeleteChar(s, c)| <= |s|
    ensures forall d :: d in DeleteChar(s, c) ==> d in s && d != c
    ensures c !in s ==> DeleteChar(s, c) == s
    ensures s != [] && s[0] != c ==> DeleteChar(s, c) != [] && DeleteChar(s, c)[0] == s[0]
    ensures s != [] && s[|s| - 1] != c ==>
      DeleteChar(s, c) != [] && DeleteChar(s, c)[|DeleteChar(s, c)| - 1] == s[|s| - 1]
  {
    if s != [] {
      DeleteCharShape(s[1..], c);
      assert s == [s[0]] + s[1..];
      if s[1..] != [] {
        assert s[|s| - 1] == s[1..][|s[1..]| - 1];
      }
    }
  }

  lemma {:induction false} ReplaceCharCounts(s: string, from: char, to: char)
    requires from != to
    ensures multiset(ReplaceChar(s, from, to))[to] == multiset(s)[to] + multiset(s)[from]
    ensures multiset(ReplaceChar(s, from, to))[from] == 0
    ensures forall c :: c != from && c != to ==> multiset(ReplaceChar(s, from, to))[c] == multiset(s)[c]
  {
    if s != [] {
      ReplaceCharCounts(s[1..], from, to);
      assert s == [s[0]] + s[1..];
    }
  }

  lemma {:induction false} DeleteCharCounts(s: string, c: char)
    ensures multiset(DeleteChar(s, c))[c] == 0
    ensures forall d :: d != c ==> multiset(DeleteChar(s, c))[d] == multiset(s)[d]
  {
    if s != [] {
      DeleteCharCounts(s[1..], c);
      assert s == [s[0]] + s[1..];
    }
  }

  // ---------------------------------------------------------------------------
  // clean_text

  /** Cleaning twice is cleaning once. */
  lemma CleanTextIdempotent(s: string)
    ensures CleanText(CleanText(s)) == CleanText(s)
  {
    var r := CleanText(s);
    CleanTextShape(s);
    if r != "" {
      StripOfTrimmed(r);
      ReplaceCharAt(r, '\n', ' ');
      assert ReplaceChar(r, '\n', ' ') == r;
      DeleteCharShape(r, '\r');
    }
  }

  /** What cleaning keeps: every character of `strip(s)` other than a line feed,
      a carriage return or a space occurs in the result exactly as often as in
      `strip(s)` (tabs included); spaces are the stripped text's spaces plus one
      for each line feed; no carriage return is left. */
  lemma CleanTextCounts(s: string)
    ensures forall c :: c != '\n' && c != '\r' && c != ' ' ==>
      multiset(CleanText(s))[c] == multiset(Strip(s))[c]
    ensures multiset(CleanText(s))[' '] == multiset(Strip(s))[' '] + multiset(Strip(s))['\n']
  {
    var t := Strip(s);
    if s == "" {
      assert t == "";
    } else {
      var u := ReplaceChar(t, '\n', ' ');
      ReplaceCharCounts(t, '\n', ' ');
      DeleteCharCounts(u, '\r');
    }
  }

  /** Without carriage returns, cleaning is position by position: the stripped
      text with each line feed replaced by a space, and nothing else changed. */
  lemma CleanTextWithoutCarriageReturn(s: string)
    requires '\r' !in s
    ensures |CleanText(s)| == |Strip(s)|
    ensures forall k :: 0 <= k < |Strip(s)| ==>
      CleanText(s)[k] == if Strip(s)[k] == '\n' then ' ' else Strip(s)[k]
  {
    var i, j := StripCut(s);
    var t := Strip(s);
    if s == "" {
      assert t == "";
    } else {
      assert forall k :: 0 <= k < |t| ==> t[k] == s[i + k];
      ReplaceCharAt(t, '\n', ' ');
      var u := ReplaceChar(t, '\n', ' ');
      assert '\r' !in u;
      DeleteCharShape(u, '\r');
    }
  }

  /** Concrete case: a CRLF inside the text becomes one space. */
  lemma CleanTextJoinsCrLf()
    ensures CleanText("a\r\nb") == "a b"
  {
    assert StripLeading("a\r\nb") == "a\r\nb";
    assert StripTrailing("a\r\nb") == "a\r\nb";
    assert ReplaceChar("a\r\nb", '\n', ' ') == "a\r b";
    assert DeleteChar("a\r b", '\r') == "a b";
  }

  /** Concrete case: an inner run of a space, a tab and a space survives. */
  lemma CleanTextKeepsInnerRun()
    ensures CleanText(" x \t y\n") == "x \t y"
  {
    assert StripLeading(" x \t y\n") == "x \t y\n";
    assert StripTrailing("x \t y\n") == "x \t y";
    assert ReplaceChar("x \t y", '\n', ' ') == "x \t y";
    assert DeleteChar("x \t y", '\r') == "x \t y";
  }

  /** A whitespace-only string cleans to the empty string. */
  lemma CleanTextOfBlank(s: string)
    requires forall k :: 0 <= k < |s| ==> IsSpace(s[k])
    ensures CleanText(s) == ""
  {
    var i, j := StripCut(s);
    if s != "" {
      assert i == j;
      assert ReplaceChar([], '\n', ' ') == [];
    }
  }

  /** A whitespace-only string holds no substring that starts with a visible character. */
  lemma BlankContainsNoWord(s: string, t: string)
    requires forall k :: 0 <= k < |s| ==> IsSpace(s[k])
    requires t != [] && !IsSpace(t[0])
    ensures !Contains(s, t)
  {
    forall i | 0 <= i <= |s| - |t|
      ensures !OccursAt(s, t, i)
    {
      assert s[i..i + |t|][0] == s[i];
    }
  }
}
