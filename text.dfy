/** The string operations the search uses: lower-casing, `trim`,
    `includes`, and the title acronym of `getAcronym` (script.js:26-30). */
module Text {

  /** A character of the regular-expression class `\w`: `[A-Za-z0-9_]`. */
  predicate IsWordChar(c: char)
  {
    ('a' <= c <= 'z') || ('A' <= c <= 'Z') || ('0' <= c <= '9') || c == '_'
  }

  /** A character `String.prototype.trim` removes: ECMAScript's WhiteSpace
      (tab, vertical tab, form feed, space, no-break space, byte order mark
      and the Unicode space separators) and LineTerminator (line feed,
      carriage return, line and paragraph separators). */
  predicate IsWhitespace(c: char)
  {
    var n := c as int;
    || n == 0x09 || n == 0x0A || n == 0x0B || n == 0x0C || n == 0x0D
    || n == 0x20 || n == 0xA0 || n == 0x1680 || (0x2000 <= n <= 0x200A)
    || n == 0x2028 || n == 0x2029 || n == 0x202F || n == 0x205F
    || n == 0x3000 || n == 0xFEFF
  }

  /** Lower-casing of one character, for the ASCII letters. */
  function LowerChar(c: char): char
  {
    if 'A' <= c <= 'Z' then (c as int - 'A' as int + 'a' as int) as char else c
  }

  /** Lower-casing restricted to ASCII: each of `A`-`Z` becomes its
      lower-case letter and every other character is kept. */
  function Lower(s: string): (r: string)
    ensures |r| == |s|
    ensures forall i :: 0 <= i < |r| ==> !('A' <= r[i] <= 'Z')
    ensures forall i :: 0 <= i < |s| && 'A' <= s[i] <= 'Z' ==> r[i] as int == s[i] as int + 32
    ensures forall i :: 0 <= i < |s| && !('A' <= s[i] <= 'Z') ==> r[i] == s[i]
  {
    seq(|s|, i requires 0 <= i < |s| => LowerChar(s[i]))
  }

  /** `s` with its leading whitespace removed. */
  function TrimStart(s: string): (r: string)
    ensures |r| <= |s| && r == s[|s| - |r|..]
    ensures forall k :: 0 <= k < |s| - |r| ==> IsWhitespace(s[k])
    ensures r != [] ==> !IsWhitespace(r[0])
  {
    if s != [] && IsWhitespace(s[0]) then TrimStart(s[1..]) else s
  }

  /** `s` with its trailing whitespace removed. */
  function TrimEnd(s: string): (r: string)
    ensures |r| <= |s| && r == s[..|r|]
    ensures forall k :: |r| <= k < |s| ==> IsWhitespace(s[k])
    ensures r != [] ==> !IsWhitespace(r[|r| - 1])
  {
    if s != [] && IsWhitespace(s[|s| - 1]) then TrimEnd(s[..|s| - 1]) else s
  }

  /** `String.prototype.trim`: the slice of `s` left after dropping the
      whitespace at both ends; the slice starts and ends with a
      non-whitespace character unless it is empty, and then `s` was all
      whitespace. */
  function Trim(s: string): (r: string)
    ensures exists i, j :: 0 <= i <= j <= |s| && r == s[i..j]
              && (forall k :: 0 <= k < i ==> IsWhitespace(s[k]))
              && (forall k :: j <= k < |s| ==> IsWhitespace(s[k]))
    ensures r != [] ==> !IsWhitespace(r[0]) && !IsWhitespace(r[|r| - 1])
  {
    var t := TrimStart(s);
    var r := TrimEnd(t);
    SuffixPrefix(s, t, r);
    r
  }

  /** A prefix `r` of a suffix `t` of `s` is the slice of `s` that starts
      where `t` does, and what follows `r` in `s` is what follows it in
      `t`. */
  lemma SuffixPrefix(s: string, t: string, r: string)
    requires |t| <= |s| && t == s[|s| - |t|..]
    requires |r| <= |t| && r == t[..|r|]
    ensures r == s[|s| - |t|..|s| - |t| + |r|]
    ensures forall k :: |s| - |t| + |r| <= k < |s| ==> s[k] == t[k - (|s| - |t|)]
  {
  }

  /** Trimming a trimmed string changes nothing. */
  lemma TrimIdempotent(s: string)
    ensures Trim(Trim(s)) == Trim(s)
  {
    var r := Trim(s);
    if r != [] {
      assert TrimStart(r) == r;
      assert TrimEnd(r) == r;
    }
  }

  /** `t` occurs in `s` starting at position `i`. */
  ghost predicate OccursAt(s: string, t: string, i: int)
  {
    0 <= i <= |s| - |t| && s[i..i + |t|] == t
  }

  /** `s.includes(t)`: whether `t` occurs in `s` as a contiguous
      substring; the empty string occurs in every string. */
  function Includes(s: string, t: string): (r: bool)
    ensures r <==> exists i :: OccursAt(s, t, i)
    decreases |s|
  {
    if |t| <= |s| && s[..|t|] == t then
      assert OccursAt(s, t, 0);
      true
    else if |s| <= |t| then
      false
    else
      var r := Includes(s[1..], t);
      assert forall i :: OccursAt(s[1..], t, i) <==> OccursAt(s, t, i + 1) by {
        forall i ensures OccursAt(s[1..], t, i) <==> OccursAt(s, t, i + 1) {
          if 0 <= i <= |s| - 1 - |t| {
            assert s[1..][i..i + |t|] == s[i + 1..i + 1 + |t|];
          }
        }
      }
      assert !OccursAt(s, t, 0);
      assert forall i :: OccursAt(s, t, i) ==> OccursAt(s[1..], t, i - 1);
      r
  }

  /** `getAcronym`'s scan: `afterWord` says whether the character before
      `s` was a word character; a word character with none before it
      begins a word and contributes its lower-cased self. */
  function Initials(s: string, afterWord: bool): string
  {
    if s == [] then []
    else
      (if IsWordChar(s[0]) && !afterWord then [LowerChar(s[0])] else [])
      + Initials(s[1..], IsWordChar(s[0]))
  }

  /** `getAcronym(title)` (script.js:26-30): an empty title gives "";
      otherwise the first character of every maximal run of word
      characters, lower-cased and joined. */
  function Acronym(title: string): string
  {
    if title == [] then [] else Initials(title, false)
  }

  /** Position `i` of `s` is where the pattern `\b\w` matches: a word
      character at the start of `s` or after a non-word character. */
  ghost predicate IsWordStart(s: string, i: int)
    requires 0 <= i < |s|
  {
    IsWordChar(s[i]) && (i == 0 || !IsWordChar(s[i - 1]))
  }

  /** The lower-cased characters at the word starts among the first `n`
      positions of `s`, left to right. */
  ghost function WordStartInitials(s: string, n: int): string
    requires 0 <= n <= |s|
  {
    if n == 0 then []
    else WordStartInitials(s, n - 1) + (if IsWordStart(s, n - 1) then [LowerChar(s[n - 1])] else [])
  }

  /** The acronym is exactly the lower-cased characters where `\b\w`
      matches, in order. */
  lemma AcronymIsWordStartInitials(s: string)
    ensures Acronym(s) == WordStartInitials(s, |s|)
  {
    InitialsFrom(s, 0);
    assert s[0..] == s;
  }

  lemma {:induction false} InitialsFrom(s: string, k: int)
    requires 0 <= k <= |s|
    ensures WordStartInitials(s, k) + Initials(s[k..], k > 0 && IsWordChar(s[k - 1]))
            == WordStartInitials(s, |s|)
    decreases |s| - k
  {
    if k < |s| {
      InitialsFrom(s, k + 1);
      assert s[k..][1..] == s[k + 1..];
      assert s[k..][0] == s[k];
    }
  }

  /** The initials of `s` number at most one per character of `s`, and
      each is a lower-case letter, a digit or an underscore. */
  lemma {:induction false} AcronymChars(s: string, afterWord: bool)
    ensures |Initials(s, afterWord)| <= |s|
    ensures forall k :: 0 <= k < |Initials(s, afterWord)| ==>
              IsWordChar(Initials(s, afterWord)[k]) && !('A' <= Initials(s, afterWord)[k] <= 'Z')
  {
    if s != [] {
      AcronymChars(s[1..], IsWordChar(s[0]));
    }
  }

  /** The acronym of a title has at most one character per character of
      the title, and each is a lower-case letter, a digit or an
      underscore. */
  lemma AcronymShape(title: string)
    ensures |Acronym(title)| <= |title|
    ensures forall k :: 0 <= k < |Acronym(title)| ==>
              IsWordChar(Acronym(title)[k]) && !('A' <= Acronym(title)[k] <= 'Z')
  {
    AcronymChars(title, false);
  }

  /** A title of three words gives their three initials:
      "Attack on Titan" has the acronym "aot". */
  lemma AttackOnTitanAcronym()
    ensures Acronym("Attack on Titan") == "aot"
  {
    var s := "Attack on Titan";
    AcronymIsWordStartInitials(s);
    assert WordStartInitials(s, 1) == "a";
    assert WordStartInitials(s, 2) == "a";
    assert WordStartInitials(s, 3) == "a";
    assert WordStartInitials(s, 4) == "a";
    assert WordStartInitials(s, 5) == "a";
    assert WordStartInitials(s, 6) == "a";
    assert WordStartInitials(s, 7) == "a";
    assert WordStartInitials(s, 8) == "ao";
    assert WordStartInitials(s, 9) == "ao";
    assert WordStartInitials(s, 10) == "ao";
    assert WordStartInitials(s, 11) == "aot";
    assert WordStartInitials(s, 12) == "aot";
    assert WordStartInitials(s, 13) == "aot";
    assert WordStartInitials(s, 14) == "aot";
    assert WordStartInitials(s, 15) == "aot";
  }

  /** The empty search term occurs in every string. */
  lemma EmptyIncluded(s: string)
    ensures Includes(s, "")
  {
    assert OccursAt(s, "", 0);
  }
}
