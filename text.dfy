/**
 * ASCII string helpers shared by the front-end (JavaScript) and back-end
 * (Python) rules: case mapping, whitespace trimming, substring search,
 * splitting and joining, Python slicing and lexicographic order.
 *
 * Both languages map case and whitespace over all of Unicode; this model
 * works on the ASCII subset (see README, "Left out").
 */
module Text {

  /** ASCII whitespace: space, tab, line feed, vertical tab, form feed, carriage return. */
  predicate IsSpace(c: char) {
    c == ' ' || c == '\t' || c == '\n' || c == '\U{B}' || c == '\U{C}' || c == '\r'
  }

  predicate IsUpper(c: char) { 'A' <= c <= 'Z' }

  predicate IsLowerLetter(c: char) { 'a' <= c <= 'z' }

  /** A cased letter in the sense of Python's str.title(), restricted to ASCII. */
  predicate IsAlpha(c: char) { IsUpper(c) || IsLowerLetter(c) }

  predicate IsUnderscore(c: char) { c == '_' }

  function LowerChar(c: char): (r: char)
    ensures !IsUpper(r)
    ensures IsUpper(c) || r == c
    ensures IsAlpha(r) == IsAlpha(c) && IsSpace(r) == IsSpace(c)
  {
    if IsUpper(c) then (c as int + 32) as char else c
  }

  function UpperChar(c: char): (r: char)
    ensures !IsLowerLetter(r)
    ensures IsLowerLetter(c) || r == c
    ensures IsAlpha(r) == IsAlpha(c) && IsSpace(r) == IsSpace(c)
  {
    if IsLowerLetter(c) then (c as int - 32) as char else c
  }

  /** String.prototype.toLowerCase / str.lower, ASCII only. */
  function Lower(s: string): (r: string)
    ensures |r| == |s|
    ensures forall i :: 0 <= i < |s| ==> r[i] == LowerChar(s[i])
  {
    seq(|s|, i requires 0 <= i < |s| => LowerChar(s[i]))
  }

  predicate NoUpper(s: string) {
    forall i :: 0 <= i < |s| ==> !IsUpper(s[i])
  }

  lemma LowerOfNoUpper(s: string)
    requires NoUpper(s)
    ensures Lower(s) == s
  {
  }

  predicate StartsWith(s: string, prefix: string) {
    |prefix| <= |s| && s[..|prefix|] == prefix
  }

  predicate EndsWith(s: string, suffix: string) {
    |suffix| <= |s| && s[|s| - |suffix|..] == suffix
  }

  predicate OccursAt(s: string, sub: string, i: int) {
    0 <= i && i + |sub| <= |s| && s[i..i + |sub|] == sub
  }

  /** String.prototype.includes / Python's `in` on strings: sub occurs at some position. */
  predicate Contains(s: string, sub: string) {
    exists i :: 0 <= i <= |s| && OccursAt(s, sub, i)
  }

  predicate NoAdjacent(s: string, c: char) {
    forall i :: 0 <= i < |s| - 1 ==> !(s[i] == c && s[i + 1] == c)
  }

  /** Drops the leading characters that satisfy p. */
  function TrimStartBy(s: string, p: char -> bool): (r: string)
    ensures |r| <= |s| && r == s[|s| - |r|..]
    ensures r == [] || !p(r[0])
    ensures forall i :: 0 <= i < |s| - |r| ==> p(s[i])
    decreases |s|
  {
    if s != [] && p(s[0]) then TrimStartBy(s[1..], p) else s
  }

  /** Drops the trailing characters that satisfy p. */
  function TrimEndBy(s: string, p: char -> bool): (r: string)
    ensures |r| <= |s| && r == s[..|r|]
    ensures r == [] || !p(r[|r| - 1])
    ensures forall i :: |r| <= i < |s| ==> p(s[i])
    decreases |s|
  {
    if s != [] && p(s[|s| - 1]) then TrimEndBy(s[..|s| - 1], p) else s
  }

  /** Python's str.strip(chars) for the character class p. */
  function StripBy(s: string, p: char -> bool): (r: string)
    ensures r == [] || (!p(r[0]) && !p(r[|r| - 1]))
    ensures (s == [] || (!p(s[0]) && !p(s[|s| - 1]))) ==> r == s
  {
    TrimEndBy(TrimStartBy(s, p), p)
  }

  /** Stripping only removes characters. */
  lemma StripByChars(s: string, p: char -> bool)
    ensures forall c :: c in StripBy(s, p) ==> c in s
  {
    var t := TrimStartBy(s, p);
    var k := |s| - |t|;
    var r := TrimEndBy(t, p);
    forall c | c in r ensures c in s {
      var j :| 0 <= j < |r| && r[j] == c;
      assert s[k + j] == c;
    }
  }

  /** A string made only of class characters strips to nothing. */
  lemma StripByAll(s: string, p: char -> bool)
    requires forall i :: 0 <= i < |s| ==> p(s[i])
    ensures StripBy(s, p) == []
  {
  }

  /** Stripping removes characters only at the ends, so it cannot create adjacent copies of c. */
  lemma StripByNoAdjacent(s: string, p: char -> bool, c: char)
    requires NoAdjacent(s, c)
    ensures NoAdjacent(StripBy(s, p), c)
  {
    var t := TrimStartBy(s, p);
    var k := |s| - |t|;
    var r := TrimEndBy(t, p);
    assert r == StripBy(s, p);
    forall i | 0 <= i < |r| - 1 ensures !(r[i] == c && r[i + 1] == c) {
      assert r[i] == t[i] == s[k + i];
      assert r[i + 1] == t[i + 1] == s[k + i + 1];
    }
  }

  /** String.prototype.trim / Python's str.strip(), ASCII whitespace only. */
  function Strip(s: string): (r: string)
    ensures r == [] || (!IsSpace(r[0]) && !IsSpace(r[|r| - 1]))
    ensures (s == [] || (!IsSpace(s[0]) && !IsSpace(s[|s| - 1]))) ==> r == s
  {
    StripBy(s, IsSpace)
  }

  /** A string without whitespace at either end is its own strip. */
  lemma StripUnchanged(s: string)
    requires s == [] || (!IsSpace(s[0]) && !IsSpace(s[|s| - 1]))
    ensures Strip(s) == s
  {
  }

  /** No whitespace at either end. */
  predicate Trimmed(s: string) {
    s == [] || (!IsSpace(s[0]) && !IsSpace(s[|s| - 1]))
  }

  /** A string is its own strip exactly when it has no whitespace at either end. */
  lemma StripFixedTrimmed(s: string)
    ensures Strip(s) == s <==> Trimmed(s)
  {
  }

  predicate IsBlank(s: string) {
    forall i :: 0 <= i < |s| ==> IsSpace(s[i])
  }

  lemma StripBlank(s: string)
    ensures Strip(s) == [] <==> IsBlank(s)
  {
    if IsBlank(s) {
      StripByAll(s, IsSpace);
    }
  }

  lemma StripChars(s: string)
    ensures forall c :: c in Strip(s) ==> c in s
  {
    StripByChars(s, IsSpace);
  }

  lemma StripIdempotent(s: string)
    ensures Strip(Strip(s)) == Strip(s)
  {
  }

  lemma StripLowerCommute(s: string)
    ensures Strip(Lower(s)) == Lower(Strip(s))
  {
    LowerTrimStart(s);
    LowerTrimEnd(TrimStartBy(s, IsSpace));
  }

  /** Stripping and lower-casing a second time changes nothing. */
  lemma LowerStripIdempotent(s: string)
    ensures Lower(Strip(Lower(Strip(s)))) == Lower(Strip(s))
  {
    StripLowerCommute(Strip(s));
    StripIdempotent(s);
    LowerOfNoUpper(Lower(Strip(s)));
  }

  lemma {:induction false} LowerTrimStart(s: string)
    ensures TrimStartBy(Lower(s), IsSpace) == Lower(TrimStartBy(s, IsSpace))
    decreases |s|
  {
    if s != [] && IsSpace(s[0]) {
      assert Lower(s)[1..] == Lower(s[1..]);
      LowerTrimStart(s[1..]);
    }
  }

  lemma {:induction false} LowerTrimEnd(s: string)
    ensures TrimEndBy(Lower(s), IsSpace) == Lower(TrimEndBy(s, IsSpace))
    decreases |s|
  {
    if s != [] && IsSpace(s[|s| - 1]) {
      assert Lower(s)[..|s| - 1] == Lower(s[..|s| - 1]);
      LowerTrimEnd(s[..|s| - 1]);
    }
  }

  /** Drops the leading run of characters that satisfy p. */
  function DropWhile(s: string, p: char -> bool): (r: string)
    ensures |r| <= |s| && r == s[|s| - |r|..]
    ensures r == [] || !p(r[0])
    ensures s != [] && p(s[0]) ==> |r| < |s|
    decreases |s|
  {
    if s != [] && p(s[0]) then DropWhile(s[1..], p) else s
  }

  /**
   * Python's re.sub(pattern, [c], s) where pattern matches maximal runs of
   * characters satisfying p (`\s+` or `_+`): every run becomes one c.
   */
  function SubRuns(s: string, p: char -> bool, c: char): (r: string)
    ensures forall i :: 0 <= i < |r| ==> r[i] == c || (r[i] in s && !p(r[i]))
    ensures r != [] ==> s != [] && r[0] == (if p(s[0]) then c else s[0])
    decreases |s|
  {
    if s == [] then []
    else if p(s[0]) then
      var rest := DropWhile(s, p);
      assert forall x :: x in rest ==> x in s by {
        forall x | x in rest ensures x in s {
          var k :| 0 <= k < |rest| && rest[k] == x;
          assert s[|s| - |rest| + k] == x;
        }
      }
      [c] + SubRuns(rest, p, c)
    else
      [s[0]] + SubRuns(s[1..], p, c)
  }

  /** The runs are maximal, so the replacement never ends up next to itself when it is in the class. */
  lemma {:induction false} SubRunsNoAdjacent(s: string, p: char -> bool, c: char)
    requires p(c)
    ensures NoAdjacent(SubRuns(s, p, c), c)
    decreases |s|
  {
    if s != [] {
      if p(s[0]) {
        SubRunsNoAdjacent(DropWhile(s, p), p, c);
      } else {
        SubRunsNoAdjacent(s[1..], p, c);
      }
    }
  }

  /** A string whose only class characters are isolated copies of c is left as it is. */
  lemma {:induction false} SubRunsIdentity(s: string, p: char -> bool, c: char)
    requires forall i :: 0 <= i < |s| ==> p(s[i]) ==> s[i] == c
    requires NoAdjacent(s, c)
    ensures SubRuns(s, p, c) == s
    decreases |s|
  {
    if s != [] {
      if p(s[0]) {
        if |s| > 1 {
          assert s[1] != c;
          assert !p(s[1]);
        }
        assert DropWhile(s[1..], p) == s[1..];
        assert DropWhile(s, p) == s[1..];
      }
      SubRunsIdentity(s[1..], p, c);
      assert s == [s[0]] + s[1..];
    }
  }

  /**
   * Python's str.title() on ASCII: a letter is upper-cased when the character
   * before it is not a letter, and lower-cased otherwise.
   */
  function Title(s: string): (r: string)
    ensures |r| == |s|
    ensures forall i :: 0 <= i < |s| ==>
      IsSpace(r[i]) == IsSpace(s[i]) && (r[i] == ',') == (s[i] == ',') && (r[i] == ' ') == (s[i] == ' ')
  {
    seq(|s|, i requires 0 <= i < |s| => if i > 0 && IsAlpha(s[i - 1]) then LowerChar(s[i]) else UpperChar(s[i]))
  }

  /** Every whitespace character is a plain space, and no two spaces are adjacent. */
  predicate SingleSpaced(s: string) {
    NoAdjacent(s, ' ') && forall c :: c in s && IsSpace(c) ==> c == ' '
  }

  /** Two single-spaced strings stay single-spaced side by side unless both spaces meet at the seam. */
  lemma SingleSpacedConcat(a: string, b: string)
    requires SingleSpaced(a) && SingleSpaced(b)
    requires a == [] || b == [] || a[|a| - 1] != ' ' || b[0] != ' '
    ensures SingleSpaced(a + b)
  {
    var s := a + b;
    forall i | 0 <= i < |s| - 1 ensures !(s[i] == ' ' && s[i + 1] == ' ') {
      if i + 1 < |a| {
        assert s[i] == a[i] && s[i + 1] == a[i + 1];
      } else if i >= |a| {
        assert s[i] == b[i - |a|] && s[i + 1] == b[i + 1 - |a|];
      }
    }
  }

  lemma SingleSpacedSuffix(s: string, k: nat)
    requires SingleSpaced(s) && k <= |s|
    ensures SingleSpaced(s[k..])
  {
    var t := s[k..];
    forall i | 0 <= i < |t| - 1 ensures !(t[i] == ' ' && t[i + 1] == ' ') {
      assert t[i] == s[k + i] && t[i + 1] == s[k + i + 1];
    }
    forall c | c in t && IsSpace(c) ensures c == ' ' {
      var j :| 0 <= j < |t| && t[j] == c;
      assert s[k + j] == c;
    }
  }

  /** Stripping only removes characters at the ends. */
  lemma StripSingleSpaced(s: string)
    requires SingleSpaced(s)
    ensures SingleSpaced(Strip(s))
  {
    StripByNoAdjacent(s, IsSpace, ' ');
    StripChars(s);
  }

  /** Replacing whitespace runs by one space leaves isolated plain spaces only. */
  lemma SubRunsSingleSpaced(s: string)
    ensures SingleSpaced(SubRuns(s, IsSpace, ' '))
  {
    SubRunsNoAdjacent(s, IsSpace, ' ');
    var r := SubRuns(s, IsSpace, ' ');
    forall c | c in r && IsSpace(c) ensures c == ' ' {
      var j :| 0 <= j < |r| && r[j] == c;
    }
  }

  /** Title case changes letters only. */
  lemma TitleSingleSpaced(s: string)
    requires SingleSpaced(s)
    ensures SingleSpaced(Title(s))
  {
    var r := Title(s);
    forall c | c in r && IsSpace(c) ensures c == ' ' {
      var j :| 0 <= j < |r| && r[j] == c;
      assert s[j] in s;
    }
  }

  /** The leading run stops before a last character outside the class. */
  lemma {:induction false} DropWhileKeepsLast(s: string, p: char -> bool)
    requires s != [] && !p(s[|s| - 1])
    ensures DropWhile(s, p) != []
    decreases |s|
  {
    if p(s[0]) {
      DropWhileKeepsLast(s[1..], p);
    }
  }

  /** A run replacement keeps a last character outside the class. */
  lemma {:induction false} SubRunsLast(s: string, p: char -> bool, c: char)
    requires s != [] && !p(s[|s| - 1])
    ensures SubRuns(s, p, c) != [] && SubRuns(s, p, c)[|SubRuns(s, p, c)| - 1] == s[|s| - 1]
    decreases |s|
  {
    if p(s[0]) {
      var rest := DropWhile(s, p);
      DropWhileKeepsLast(s, p);
      SubRunsLast(rest, p, c);
    } else if |s| > 1 {
      SubRunsLast(s[1..], p, c);
    }
  }

  /** String.prototype.replace / str.replace with every occurrence of char a replaced by b. */
  function ReplaceChar(s: string, a: char, b: char): (r: string)
    ensures |r| == |s|
    ensures forall i :: 0 <= i < |s| ==> r[i] == if s[i] == a then b else s[i]
  {
    seq(|s|, i requires 0 <= i < |s| => if s[i] == a then b else s[i])
  }

  /** String.prototype.split(sep) / str.split(sep) for a one-character separator. */
  function Split(s: string, sep: char): (r: seq<string>)
    ensures |r| >= 1
    ensures forall i :: 0 <= i < |r| ==> sep !in r[i]
    decreases |s|
  {
    if s == [] then [""]
    else
      var rest := Split(s[1..], sep);
      if s[0] == sep then [""] + rest else [[s[0]] + rest[0]] + rest[1..]
  }

  /** The first piece of a split starts where the string does. */
  lemma SplitHead(s: string, sep: char)
    ensures Split(s, sep)[0] != [] ==> s != [] && Split(s, sep)[0][0] == s[0]
  {
  }

  /** The pieces of a single-spaced string are single-spaced. */
  lemma {:induction false} SplitSingleSpaced(s: string, sep: char)
    requires SingleSpaced(s)
    ensures forall x :: x in Split(s, sep) ==> SingleSpaced(x)
    decreases |s|
  {
    if s != [] {
      SingleSpacedSuffix(s, 1);
      SplitSingleSpaced(s[1..], sep);
      var rest := Split(s[1..], sep);
      if s[0] != sep {
        assert s[0] in s;
        SplitHead(s[1..], sep);
        SingleSpacedConcat([s[0]], rest[0]);
        assert Split(s, sep) == [[s[0]] + rest[0]] + rest[1..];
      }
    }
  }

  /** Array.prototype.join(sep) / sep.join(parts). */
  function Join(parts: seq<string>, sep: string): string
    decreases |parts|
  {
    if parts == [] then ""
    else if |parts| == 1 then parts[0]
    else parts[0] + sep + Join(parts[1..], sep)
  }

  /** Joining the pieces of a split with the separator gives back the string. */
  lemma {:induction false} JoinSplit(s: string, sep: char)
    ensures Join(Split(s, sep), [sep]) == s
    decreases |s|
  {
    if s != [] {
      JoinSplit(s[1..], sep);
      var rest := Split(s[1..], sep);
      if s[0] != sep {
        if |rest| == 1 {
          assert Split(s, sep) == [[s[0]] + rest[0]];
        } else {
          assert Split(s, sep) == [[s[0]] + rest[0]] + rest[1..];
          assert Join(rest, [sep]) == rest[0] + [sep] + Join(rest[1..], [sep]);
        }
      }
    }
  }

  /** A string without the separator splits into itself alone. */
  lemma {:induction false} SplitNoSep(s: string, sep: char)
    requires sep !in s
    ensures Split(s, sep) == [s]
    decreases |s|
  {
    if s != [] {
      SplitNoSep(s[1..], sep);
      assert s == [s[0]] + s[1..];
    }
  }

  /** A split has a single piece exactly when the separator does not occur. */
  lemma {:induction false} SplitSinglePiece(s: string, sep: char)
    ensures |Split(s, sep)| == 1 <==> sep !in s
    decreases |s|
  {
    if s != [] {
      SplitSinglePiece(s[1..], sep);
      assert s == [s[0]] + s[1..];
    }
  }

  /** Splitting at the first separator. */
  lemma {:induction false} SplitFirst(a: string, sep: char, b: string)
    requires sep !in a
    ensures Split(a + [sep] + b, sep) == [a] + Split(b, sep)
    decreases |a|
  {
    if a == [] {
      assert a + [sep] + b == [sep] + b;
      assert ([sep] + b)[1..] == b;
    } else {
      SplitFirst(a[1..], sep, b);
      assert (a + [sep] + b)[1..] == a[1..] + [sep] + b;
      assert [a[0]] + a[1..] == a;
    }
  }

  /** Python's index normalisation for slices: negative means from the end, then clamp. */
  function PyIndex(i: int, n: nat): (r: nat)
    ensures r <= n
  {
    if i < 0 then (if i + n < 0 then 0 else i + n)
    else if i > n then n
    else i
  }

  /** Python's s[start:stop]: empty when the normalised bounds cross. */
  function PySlice(s: string, start: int, stop: int): string {
    var a := PyIndex(start, |s|);
    var b := PyIndex(stop, |s|);
    if a < b then s[a..b] else []
  }

  /** Lexicographic order on code points: Python's `<` on str, JavaScript's on ASCII strings. */
  predicate StrLt(a: string, b: string)
    decreases |a|
  {
    if a == [] then b != []
    else if b == [] then false
    else if a[0] != b[0] then a[0] < b[0]
    else StrLt(a[1..], b[1..])
  }

  lemma {:induction false} StrLtIrreflexive(a: string)
    ensures !StrLt(a, a)
    decreases |a|
  {
    if a != [] {
      StrLtIrreflexive(a[1..]);
    }
  }

  lemma {:induction false} StrLtTransitive(a: string, b: string, c: string)
    requires StrLt(a, b) && StrLt(b, c)
    ensures StrLt(a, c)
    decreases |a|
  {
    if a != [] && b != [] && c != [] && a[0] == b[0] && b[0] == c[0] {
      StrLtTransitive(a[1..], b[1..], c[1..]);
    }
  }

  lemma {:induction false} StrLtTotal(a: string, b: string)
    ensures a == b || StrLt(a, b) || StrLt(b, a)
    decreases |a|
  {
    if a != [] && b != [] && a[0] == b[0] {
      StrLtTotal(a[1..], b[1..]);
      if a[1..] == b[1..] {
        assert a == [a[0]] + a[1..] && b == [b[0]] + b[1..];
      }
    }
  }
}
