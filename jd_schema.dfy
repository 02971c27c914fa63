/**
 * Normalisation of the fields a language model extracts from a job
 * description: lower_snake_case keys, deduplicated sorted lists, a keyword
 * role classifier, lenient booleans, and the per-field "before" validators
 * of the job schema.
 */
module JdSchema {
  import opened Wrappers
  import opened Text
  import opened Seqs
  import opened Values

  // ---------------------------------------------------------------------
  // to_lower_snake
  // ---------------------------------------------------------------------

  /** A character that may appear in a lower_snake_case key. */
  predicate SnakeChar(c: char) {
    !IsUpper(c) && !IsSpace(c) && c != '-' && c != '/'
  }

  /**
   * The shape of a lower_snake_case key: no upper case, no whitespace, no
   * '-' or '/', no "__", and no '_' at either end.
   */
  predicate IsLowerSnake(s: string) {
    (forall i :: 0 <= i < |s| ==> SnakeChar(s[i]))
    && NoAdjacent(s, '_')
    && (s == [] || (s[0] != '_' && s[|s| - 1] != '_'))
  }

  predicate NoUpperNoSpace(s: string) {
    forall i :: 0 <= i < |s| ==> !IsUpper(s[i]) && !IsSpace(s[i])
  }

  predicate AllSnakeChars(s: string) {
    forall i :: 0 <= i < |s| ==> SnakeChar(s[i])
  }

  lemma SpaceRunsClean(s1: string)
    requires NoUpper(s1)
    ensures NoUpperNoSpace(SubRuns(s1, IsSpace, '_'))
  {
    var r := SubRuns(s1, IsSpace, '_');
    forall i | 0 <= i < |r| ensures !IsUpper(r[i]) && !IsSpace(r[i]) {
      if r[i] != '_' {
        var m :| 0 <= m < |s1| && s1[m] == r[i];
      }
    }
  }

  lemma ReplaceSeparatorsClean(s2: string)
    requires NoUpperNoSpace(s2)
    ensures AllSnakeChars(ReplaceChar(ReplaceChar(s2, '-', '_'), '/', '_'))
  {
  }

  lemma UnderscoreRunsClean(s3: string)
    requires AllSnakeChars(s3)
    ensures AllSnakeChars(SubRuns(s3, IsUnderscore, '_'))
  {
    var r := SubRuns(s3, IsUnderscore, '_');
    forall i | 0 <= i < |r| ensures SnakeChar(r[i]) {
      if r[i] != '_' {
        var m :| 0 <= m < |s3| && s3[m] == r[i];
      }
    }
  }

  lemma StripUnderscoresClean(s4: string)
    requires AllSnakeChars(s4)
    ensures AllSnakeChars(StripBy(s4, IsUnderscore))
  {
    var r := StripBy(s4, IsUnderscore);
    forall i | 0 <= i < |r| ensures SnakeChar(r[i]) {
      assert r[i] in r;
      var m :| 0 <= m < |s4| && s4[m] == r[i];
    }
  }

  /**
   * Strip and lower-case; every whitespace run becomes '_'; '-' and '/'
   * become '_'; every run of '_' becomes one '_'; strip '_' from both ends.
   */
  function ToLowerSnake(s: string): string {
    var s1 := Lower(Strip(s));
    var s2 := SubRuns(s1, IsSpace, '_');
    var s3 := ReplaceChar(ReplaceChar(s2, '-', '_'), '/', '_');
    var s4 := SubRuns(s3, IsUnderscore, '_');
    StripBy(s4, IsUnderscore)
  }

  /** Whatever the input, the result is a lower_snake_case key. */
  lemma ToLowerSnakeShape(s: string)
    ensures IsLowerSnake(ToLowerSnake(s))
  {
    var s1 := Lower(Strip(s));
    var s2 := SubRuns(s1, IsSpace, '_');
    var s3 := ReplaceChar(ReplaceChar(s2, '-', '_'), '/', '_');
    var s4 := SubRuns(s3, IsUnderscore, '_');
    SpaceRunsClean(s1);
    ReplaceSeparatorsClean(s2);
    UnderscoreRunsClean(s3);
    StripUnderscoresClean(s4);
    SubRunsNoAdjacent(s3, IsUnderscore, '_');
    StripByNoAdjacent(s4, IsUnderscore, '_');
  }

  lemma ReplaceAbsent(s: string, a: char, b: char)
    requires a !in s
    ensures ReplaceChar(s, a, b) == s
  {
    var r := ReplaceChar(s, a, b);
    forall i | 0 <= i < |s| ensures r[i] == s[i] {
      assert s[i] in s;
    }
  }

  /** A string already in lower_snake_case is left unchanged. */
  lemma ToLowerSnakeFixpoint(s: string)
    requires IsLowerSnake(s)
    ensures ToLowerSnake(s) == s
  {
    assert Strip(s) == s by {
      if s != [] {
        assert SnakeChar(s[0]) && SnakeChar(s[|s| - 1]);
      }
    }
    assert Lower(s) == s by {
      LowerOfNoUpper(s);
    }
    assert SubRuns(s, IsSpace, '_') == s by {
      SubRunsIdentity(s, IsSpace, '_');
    }
    assert ReplaceChar(ReplaceChar(s, '-', '_'), '/', '_') == s by {
      assert '-' !in s && '/' !in s;
      ReplaceAbsent(s, '-', '_');
      ReplaceAbsent(s, '/', '_');
    }
    assert SubRuns(s, IsUnderscore, '_') == s by {
      SubRunsIdentity(s, IsUnderscore, '_');
    }
  }

  /** to_lower_snake is idempotent. */
  lemma ToLowerSnakeIdempotent(s: string)
    ensures ToLowerSnake(ToLowerSnake(s)) == ToLowerSnake(s)
  {
    ToLowerSnakeShape(s);
    ToLowerSnakeFixpoint(ToLowerSnake(s));
  }

  // ---------------------------------------------------------------------
  // dedupe_sorted
  // ---------------------------------------------------------------------

  /** The normalised key of every item, in order. */
  function MapLowerSnake(items: seq<string>): (r: seq<string>)
    ensures |r| == |items|
    ensures forall i :: 0 <= i < |items| ==> r[i] == ToLowerSnake(items[i])
  {
    MapSeq(ToLowerSnake, items)
  }

  /**
   * The result of `dedupe_sorted`: the distinct normalised keys, sorted.
   */
  function DedupedKeys(items: seq<string>): seq<string> {
    SortStrings(Distinct(MapLowerSnake(items)))
  }

  /** The deduplicated keys are strictly increasing, clean, and exactly the normalised items. */
  lemma DedupedKeysSpec(items: seq<string>)
    ensures StrictlyIncreasing(DedupedKeys(items))
    ensures forall x :: x in DedupedKeys(items) <==> x in MapLowerSnake(items)
    ensures forall x :: x in DedupedKeys(items) <==> exists i :: 0 <= i < |items| && x == ToLowerSnake(items[i])
    ensures forall i :: 0 <= i < |DedupedKeys(items)| ==> IsLowerSnake(DedupedKeys(items)[i])
  {
    var m := MapLowerSnake(items);
    var r := DedupedKeys(items);
    SortDistinctMembers(m);
    MapLowerSnakeMembers(items);
    MapLowerSnakeShape(items);
    forall i | 0 <= i < |r| ensures IsLowerSnake(r[i]) {
      assert r[i] in r;
    }
  }

  /** The keys are exactly those of the items. */
  lemma MapLowerSnakeMembers(items: seq<string>)
    ensures forall x :: x in MapLowerSnake(items) <==> exists i :: 0 <= i < |items| && x == ToLowerSnake(items[i])
  {
    var m := MapLowerSnake(items);
    forall x ensures x in m <==> exists i :: 0 <= i < |items| && x == ToLowerSnake(items[i]) {
      if x in m {
        var i :| 0 <= i < |m| && m[i] == x;
        assert x == ToLowerSnake(items[i]);
      }
      if exists i :: 0 <= i < |items| && x == ToLowerSnake(items[i]) {
        var i :| 0 <= i < |items| && x == ToLowerSnake(items[i]);
        assert m[i] == x;
      }
    }
  }

  /** Every key is lower_snake_case. */
  lemma MapLowerSnakeShape(items: seq<string>)
    ensures forall x :: x in MapLowerSnake(items) ==> IsLowerSnake(x)
  {
    var m := MapLowerSnake(items);
    forall x | x in m ensures IsLowerSnake(x) {
      var i :| 0 <= i < |m| && m[i] == x;
      ToLowerSnakeShape(items[i]);
    }
  }

  /** One more key is added to the seen keys unless it is there already. */
  lemma SeenStep(keys: seq<string>, k: nat, seen: seq<string>)
    requires k < |keys| && seen == Distinct(keys[..k])
    ensures Distinct(keys[..k + 1]) == if keys[k] in seen then seen else seen + [keys[k]]
  {
    assert keys[..k + 1] == keys[..k] + [keys[k]];
    DistinctSnoc(keys[..k], keys[k]);
  }

  /**
   * Collects the distinct normalised keys (the dictionary `seen`, kept as its
   * keys in insertion order) and returns them sorted.
   */
  method DedupeSorted(items: seq<string>) returns (r: seq<string>)
    ensures r == DedupedKeys(items)
    ensures StrictlyIncreasing(r)
    ensures forall x :: x in r <==> x in MapLowerSnake(items)
    ensures forall i :: 0 <= i < |r| ==> IsLowerSnake(r[i])
  {
    ghost var keys := MapLowerSnake(items);
    var seen: seq<string> := [];
    var k := 0;
    while k < |items|
      invariant 0 <= k <= |items|
      invariant seen == Distinct(keys[..k])
    {
      var key := ToLowerSnake(items[k]);
      assert key == keys[k];
      SeenStep(keys, k, seen);
      if key !in seen {
        seen := seen + [key];
      }
      k := k + 1;
    }
    assert keys[..k] == keys;
    r := SortStrings(seen);
    SortedSeenKeys(items, seen);
  }

  /** Sorting the seen keys of all the items gives the deduplicated keys, with their properties. */
  lemma SortedSeenKeys(items: seq<string>, seen: seq<string>)
    requires seen == Distinct(MapLowerSnake(items))
    ensures SortStrings(seen) == DedupedKeys(items)
    ensures StrictlyIncreasing(SortStrings(seen))
    ensures forall x :: x in SortStrings(seen) <==> x in MapLowerSnake(items)
    ensures forall i :: 0 <= i < |SortStrings(seen)| ==> IsLowerSnake(SortStrings(seen)[i])
  {
    DedupedKeysSpec(items);
  }

  // ---------------------------------------------------------------------
  // fuzzy_role_mapper
  // ---------------------------------------------------------------------

  /**
   * Keyword tests on the lower-cased text, in a fixed order; the first test
   * that hits decides. Without a hit the text itself is normalised.
   */
  function FuzzyRoleMapper(text: string): (r: string)
    ensures IsLowerSnake(r)
  {
    RoleNamesSnakeA();
    RoleNamesSnakeB();
    RoleNamesSnakeC();
    ToLowerSnakeShape(text);
    var t := Lower(text);
    if Contains(t, "react") || Contains(t, "flutter") then "frontend"
    else if Contains(t, "web") then "fullstack"
    else if Contains(t, "cloud") then "cloud_engineer"
    else if Contains(t, "mobile") then "mobile_engineer"
    else if Contains(t, "frontend") then "frontend"
    else if Contains(t, "backend") || Contains(t, "back-end") then "backend"
    else if Contains(t, "fullstack") || Contains(t, "full stack") then "fullstack"
    else if Contains(t, "ml") || Contains(t, "machine learning") || Contains(t, "ai")
         || Contains(t, "artificial intelligence") || Contains(t, "data") then "data_scientist"
    else if Contains(t, "qa") || Contains(t, "test") then "qa_engineer"
    else if Contains(t, "devops") then "devops"
    else if Contains(t, "software") || Contains(t, "application") || Contains(t, "sde") then "software_engineer"
    else ToLowerSnake(text)
  }

  /** One classification rule: any of the keywords gives the role. */
  datatype RoleRule = RoleRule(keywords: seq<string>, role: string)

  /** The classifier as a table, in priority order. */
  const RoleRules: seq<RoleRule> := [
    RoleRule(["react", "flutter"], "frontend"),
    RoleRule(["web"], "fullstack"),
    RoleRule(["cloud"], "cloud_engineer"),
    RoleRule(["mobile"], "mobile_engineer"),
    RoleRule(["frontend"], "frontend"),
    RoleRule(["backend", "back-end"], "backend"),
    RoleRule(["fullstack", "full stack"], "fullstack"),
    RoleRule(["ml", "machine learning", "ai", "artificial intelligence", "data"], "data_scientist"),
    RoleRule(["qa", "test"], "qa_engineer"),
    RoleRule(["devops"], "devops"),
    RoleRule(["software", "application", "sde"], "software_engineer")]

  predicate RuleHits(rule: RoleRule, t: string) {
    exists k :: k in rule.keywords && Contains(t, k)
  }

  /** The role of the first rule that hits, if any. */
  function FirstMatch(rules: seq<RoleRule>, t: string): Option<string>
    decreases |rules|
  {
    if rules == [] then None
    else if RuleHits(rules[0], t) then Some(rules[0].role)
    else FirstMatch(rules[1..], t)
  }

  /** First match wins: no answer iff no rule hits; otherwise the role of the earliest rule that hits. */
  lemma {:induction false} FirstMatchSpec(rules: seq<RoleRule>, t: string)
    ensures FirstMatch(rules, t).None? <==> forall i :: 0 <= i < |rules| ==> !RuleHits(rules[i], t)
    ensures FirstMatch(rules, t).Some? ==>
      exists i :: 0 <= i < |rules| && RuleHits(rules[i], t) && rules[i].role == FirstMatch(rules, t).value
        && forall j :: 0 <= j < i ==> !RuleHits(rules[j], t)
    decreases |rules|
  {
    if rules != [] && !RuleHits(rules[0], t) {
      FirstMatchSpec(rules[1..], t);
      assert forall j :: 1 <= j < |rules| ==> rules[j] == rules[1..][j - 1];
      if FirstMatch(rules[1..], t).Some? {
        var i :| 0 <= i < |rules[1..]| && RuleHits(rules[1..][i], t) && rules[1..][i].role == FirstMatch(rules, t).value
                 && forall j :: 0 <= j < i ==> !RuleHits(rules[1..][j], t);
        assert rules[i + 1] == rules[1..][i];
      }
    }
  }

  lemma HitsOne(a: string, role: string, t: string)
    ensures RuleHits(RoleRule([a], role), t) <==> Contains(t, a)
  {
    if Contains(t, a) {
      assert a in [a];
    }
  }

  lemma HitsTwo(a: string, b: string, role: string, t: string)
    ensures RuleHits(RoleRule([a, b], role), t) <==> Contains(t, a) || Contains(t, b)
  {
    if Contains(t, a) {
      assert a in [a, b];
    }
    if Contains(t, b) {
      assert b in [a, b];
    }
  }

  lemma HitsThree(a: string, b: string, c: string, role: string, t: string)
    ensures RuleHits(RoleRule([a, b, c], role), t) <==> Contains(t, a) || Contains(t, b) || Contains(t, c)
  {
    var ks := [a, b, c];
    if Contains(t, a) {
      assert ks[0] in ks;
    }
    if Contains(t, b) {
      assert ks[1] in ks;
    }
    if Contains(t, c) {
      assert ks[2] in ks;
    }
  }

  lemma HitsFive(a: string, b: string, c: string, d: string, e: string, role: string, t: string)
    ensures RuleHits(RoleRule([a, b, c, d, e], role), t)
        <==> Contains(t, a) || Contains(t, b) || Contains(t, c) || Contains(t, d) || Contains(t, e)
  {
    var ks := [a, b, c, d, e];
    if Contains(t, a) {
      assert ks[0] in ks;
    }
    if Contains(t, b) {
      assert ks[1] in ks;
    }
    if Contains(t, c) {
      assert ks[2] in ks;
    }
    if Contains(t, d) {
      assert ks[3] in ks;
    }
    if Contains(t, e) {
      assert ks[4] in ks;
    }
  }

  /** Which of the first four rules hit, spelled out as the if-chain's tests. */
  lemma RuleTableHitsHead(t: string)
    ensures RuleHits(RoleRules[0], t) <==> Contains(t, "react") || Contains(t, "flutter")
    ensures RuleHits(RoleRules[1], t) <==> Contains(t, "web")
    ensures RuleHits(RoleRules[2], t) <==> Contains(t, "cloud")
    ensures RuleHits(RoleRules[3], t) <==> Contains(t, "mobile")
  {
    HitsTwo("react", "flutter", "frontend", t);
    HitsOne("web", "fullstack", t);
    HitsOne("cloud", "cloud_engineer", t);
    HitsOne("mobile", "mobile_engineer", t);
  }

  /** Which of the remaining rules hit, spelled out as the elif-chain's tests. */
  lemma RuleTableHitsMiddle(t: string)
    ensures RuleHits(RoleRules[4], t) <==> Contains(t, "frontend")
    ensures RuleHits(RoleRules[5], t) <==> Contains(t, "backend") || Contains(t, "back-end")
    ensures RuleHits(RoleRules[6], t) <==> Contains(t, "fullstack") || Contains(t, "full stack")
    ensures RuleHits(RoleRules[7], t)
        <==> (Contains(t, "ml") || Contains(t, "machine learning") || Contains(t, "ai")
              || Contains(t, "artificial intelligence") || Contains(t, "data"))
  {
    HitsOne("frontend", "frontend", t);
    HitsTwo("backend", "back-end", "backend", t);
    HitsTwo("fullstack", "full stack", "fullstack", t);
    HitsFive("ml", "machine learning", "ai", "artificial intelligence", "data", "data_scientist", t);
  }

  lemma RuleTableHitsLast(t: string)
    ensures RuleHits(RoleRules[8], t) <==> Contains(t, "qa") || Contains(t, "test")
    ensures RuleHits(RoleRules[9], t) <==> Contains(t, "devops")
    ensures RuleHits(RoleRules[10], t) <==> Contains(t, "software") || Contains(t, "application") || Contains(t, "sde")
  {
    HitsTwo("qa", "test", "qa_engineer", t);
    HitsOne("devops", "devops", t);
    HitsThree("software", "application", "sde", "software_engineer", t);
  }

  /** One step of the lookup: the rule at position k decides, or the rest of the table does. */
  lemma FirstMatchStep(rules: seq<RoleRule>, k: nat, t: string)
    requires k < |rules|
    ensures FirstMatch(rules[k..], t)
         == if RuleHits(rules[k], t) then Some(rules[k].role) else FirstMatch(rules[k + 1..], t)
  {
    assert rules[k..][1..] == rules[k + 1..];
  }

  /** The if-chain is the first-match-wins lookup in the rule table. */
  lemma FuzzyRoleMapperIsFirstMatch(text: string)
    ensures FuzzyRoleMapper(text)
         == (var m := FirstMatch(RoleRules, Lower(text)); if m.Some? then m.value else ToLowerSnake(text))
  {
    var t := Lower(text);
    RuleTableHitsHead(t);
    assert RoleRules[0..] == RoleRules;
    FirstMatchStep(RoleRules, 0, t);
    if !RuleHits(RoleRules[0], t) {
      FirstMatchStep(RoleRules, 1, t);
      if !RuleHits(RoleRules[1], t) {
        FirstMatchStep(RoleRules, 2, t);
        if !RuleHits(RoleRules[2], t) {
          FirstMatchStep(RoleRules, 3, t);
          if !RuleHits(RoleRules[3], t) {
            FuzzyRoleMapperTail(text);
          }
        }
      }
    }
  }

  /** The elif-chain after the first four tests is the lookup in the rest of the table. */
  lemma FuzzyRoleMapperTail(text: string)
    requires !Contains(Lower(text), "react") && !Contains(Lower(text), "flutter") && !Contains(Lower(text), "web")
    requires !Contains(Lower(text), "cloud") && !Contains(Lower(text), "mobile")
    ensures FuzzyRoleMapper(text)
         == (var m := FirstMatch(RoleRules[4..], Lower(text)); if m.Some? then m.value else ToLowerSnake(text))
  {
    var t := Lower(text);
    RuleTableHitsMiddle(t);
    FirstMatchStep(RoleRules, 4, t);
    if !RuleHits(RoleRules[4], t) {
      FirstMatchStep(RoleRules, 5, t);
      if !RuleHits(RoleRules[5], t) {
        FirstMatchStep(RoleRules, 6, t);
        if !RuleHits(RoleRules[6], t) {
          FirstMatchStep(RoleRules, 7, t);
          if !RuleHits(RoleRules[7], t) {
            FuzzyRoleMapperLast(text);
          }
        }
      }
    }
  }

  /** The last three tests of the elif-chain are the lookup in the last three rules. */
  lemma FuzzyRoleMapperLast(text: string)
    requires !Contains(Lower(text), "react") && !Contains(Lower(text), "flutter") && !Contains(Lower(text), "web")
    requires !Contains(Lower(text), "cloud") && !Contains(Lower(text), "mobile") && !Contains(Lower(text), "frontend")
    requires !Contains(Lower(text), "backend") && !Contains(Lower(text), "back-end")
    requires !Contains(Lower(text), "fullstack") && !Contains(Lower(text), "full stack")
    requires !Contains(Lower(text), "ml") && !Contains(Lower(text), "machine learning") && !Contains(Lower(text), "ai")
    requires !Contains(Lower(text), "artificial intelligence") && !Contains(Lower(text), "data")
    ensures FuzzyRoleMapper(text)
         == (var m := FirstMatch(RoleRules[8..], Lower(text)); if m.Some? then m.value else ToLowerSnake(text))
  {
    var t := Lower(text);
    RuleTableHitsLast(t);
    assert RoleRules[11..] == [];
    FirstMatchStep(RoleRules, 8, t);
    if !RuleHits(RoleRules[8], t) {
      FirstMatchStep(RoleRules, 9, t);
      if !RuleHits(RoleRules[9], t) {
        FirstMatchStep(RoleRules, 10, t);
      }
    }
  }

  lemma RoleNamesSnakeA()
    ensures IsLowerSnake("frontend") && IsLowerSnake("fullstack") && IsLowerSnake("cloud_engineer")
  {
  }

  lemma RoleNamesSnakeB()
    ensures IsLowerSnake("mobile_engineer") && IsLowerSnake("backend") && IsLowerSnake("data_scientist")
  {
  }

  lemma RoleNamesSnakeC()
    ensures IsLowerSnake("qa_engineer") && IsLowerSnake("devops") && IsLowerSnake("software_engineer")
  {
  }

  /** Every role in the table is itself a lower_snake_case key. */
  lemma RuleRolesSnake(i: nat)
    requires i < |RoleRules|
    ensures IsLowerSnake(RoleRules[i].role)
  {
    RoleNamesSnakeA();
    RoleNamesSnakeB();
    RoleNamesSnakeC();
  }

  /** The earliest rule that hits decides the role, whatever the later rules say. */
  lemma FuzzyRoleMapperFirstHitWins(text: string, i: nat)
    requires i < |RoleRules| && RuleHits(RoleRules[i], Lower(text))
    requires forall j :: 0 <= j < i ==> !RuleHits(RoleRules[j], Lower(text))
    ensures FuzzyRoleMapper(text) == RoleRules[i].role
  {
    var t := Lower(text);
    FuzzyRoleMapperIsFirstMatch(text);
    FirstMatchSpec(RoleRules, t);
    var k :| 0 <= k < |RoleRules| && RuleHits(RoleRules[k], t) && RoleRules[k].role == FirstMatch(RoleRules, t).value
             && forall j :: 0 <= j < k ==> !RuleHits(RoleRules[j], t);
    assert k == i;
  }

  /** Without a hit the text itself is normalised. */
  lemma FuzzyRoleMapperFallback(text: string)
    requires forall i :: 0 <= i < |RoleRules| ==> !RuleHits(RoleRules[i], Lower(text))
    ensures FuzzyRoleMapper(text) == ToLowerSnake(text)
  {
    FuzzyRoleMapperIsFirstMatch(text);
    FirstMatchSpec(RoleRules, Lower(text));
  }

  /** The result is always a lower_snake_case key: the role of a rule that hits, or the normalised text. */
  lemma FuzzyRoleMapperShape(text: string)
    ensures IsLowerSnake(FuzzyRoleMapper(text))
    ensures FuzzyRoleMapper(text) == ToLowerSnake(text)
         || exists i :: 0 <= i < |RoleRules| && RuleHits(RoleRules[i], Lower(text)) && FuzzyRoleMapper(text) == RoleRules[i].role
  {
    var t := Lower(text);
    FuzzyRoleMapperIsFirstMatch(text);
    FirstMatchSpec(RoleRules, t);
    if FirstMatch(RoleRules, t).Some? {
      var i :| 0 <= i < |RoleRules| && RuleHits(RoleRules[i], t) && RoleRules[i].role == FirstMatch(RoleRules, t).value
               && forall j :: 0 <= j < i ==> !RuleHits(RoleRules[j], t);
      RuleRolesSnake(i);
    }
  }

  // ---------------------------------------------------------------------
  // to_bool_or_none
  // ---------------------------------------------------------------------

  const TrueWords: set<string> := {"true", "yes", "y", "1"}
  const FalseWords: set<string> := {"false", "no", "n", "0"}

  /** "" and "null" are their own keys, and neither is a word with a meaning. */
  lemma NullWords()
    ensures Lower(Strip("")) == "" && Lower(Strip("null")) == "null"
    ensures "" !in TrueWords && "" !in FalseWords && "null" !in TrueWords && "null" !in FalseWords
  {
    NullKeys();
  }

  lemma NullKeys()
    ensures Lower(Strip("")) == "" && Lower(Strip("null")) == "null"
  {
    StripUnchanged("null");
    StripUnchanged("");
    LowerOfNoUpper("null");
  }

  lemma WordsDisjoint(t: string)
    ensures !(t in TrueWords && t in FalseWords)
  {
  }

  /**
   * None, "" and "null" give no answer; a bool is itself; an int is true
   * unless zero; a string is judged on its stripped, lower-cased form.
   */
  function ToBoolOrNone(v: Value): (r: Option<bool>)
    ensures v.Bool? ==> r == Some(v.b)
    ensures v.Int? ==> r == Some(v.n != 0)
    ensures v.Null? || v.List? || v.Other? ==> r.None?
    ensures v.Str? ==> (r == Some(true) <==> Lower(Strip(v.s)) in TrueWords)
    ensures v.Str? ==> (r == Some(false) <==> Lower(Strip(v.s)) in FalseWords)
  {
    if v == Null || v == Str("") || v == Str("null") then
      NullWords();
      None
    else if v.Bool? then Some(v.b)
    else if v.Int? then Some(v.n != 0)
    else if v.Str? then
      var t := Lower(Strip(v.s));
      WordsDisjoint(t);
      if t in TrueWords then Some(true)
      else if t in FalseWords then Some(false)
      else None
    else None
  }

  /** A string gives the same answer as its stripped, lower-cased form. */
  lemma ToBoolOrNoneNormalised(s: string)
    ensures ToBoolOrNone(Str(s)) == ToBoolOrNone(Str(Lower(Strip(s))))
  {
    LowerStripIdempotent(s);
  }

  lemma TrueKey()
    ensures Lower(Strip("True")) == "true"
  {
    StripUnchanged("True");
  }

  lemma FalseKey()
    ensures Lower(Strip("False")) == "false"
  {
    StripUnchanged("False");
  }

  /** Python's own spelling of a bool reads back as that bool. */
  lemma ToBoolOrNoneRoundTrip(b: bool)
    ensures ToBoolOrNone(Str(if b then "True" else "False")) == Some(b)
    ensures ToBoolOrNone(Bool(b)) == Some(b)
  {
    TrueKey();
    FalseKey();
  }

  // ---------------------------------------------------------------------
  // Field validators ("before" mode)
  // ---------------------------------------------------------------------

  /** _strip_text: strings are stripped and a blank one becomes None; the rest pass through. */
  function StripText(v: Value): (r: Value)
    ensures !v.Str? ==> r == v
    ensures v.Str? ==> (r.Null? <==> IsBlank(v.s))
    ensures v.Str? && r.Str? ==> r.s != "" && Strip(r.s) == r.s
    ensures v.Str? && !IsBlank(v.s) ==> r == Str(Strip(v.s))
  {
    if !v.Str? then v
    else if Strip(v.s) == "" then
      StripBlank(v.s);
      Null
    else
      StripBlank(v.s);
      StripIdempotent(v.s);
      Str(Strip(v.s))
  }

  lemma StripTextIdempotent(v: Value)
    ensures StripText(StripText(v)) == StripText(v)
  {
  }

  /** _norm_industry: strings become lower_snake_case, None when that is empty. */
  function NormIndustry(v: Value): (r: Value)
    ensures !v.Str? ==> r == v
    ensures v.Str? && r.Str? ==> r.s != "" && IsLowerSnake(r.s)
    ensures v.Str? ==> r == if ToLowerSnake(v.s) == "" then Null else Str(ToLowerSnake(v.s))
  {
    if v.Str? then
      var t := ToLowerSnake(v.s);
      ToLowerSnakeShape(v.s);
      if t == "" then Null else Str(t)
    else v
  }

  lemma NormIndustryIdempotent(v: Value)
    ensures NormIndustry(NormIndustry(v)) == NormIndustry(v)
  {
    if v.Str? {
      ToLowerSnakeIdempotent(v.s);
    }
  }

  const LevelMap: map<string, string> := map[
    "entry-level" := "junior",
    "graduate" := "junior",
    "sr" := "senior",
    "senior-level" := "senior",
    "team lead" := "lead"]

  /** The levels the schema accepts. */
  const LevelLiterals: set<string> := {"intern", "junior", "mid", "senior", "lead", "manager"}

  /** The words the level map substitutes in. */
  const LevelTargets: set<string> := {"junior", "senior", "lead"}

  lemma LevelMapInto(k: string)
    requires k in LevelMap
    ensures LevelMap[k] in LevelTargets
  {
  }

  /** A substituted level is an accepted one and is not itself substituted again. */
  lemma LevelTargetsFinal(u: string)
    requires u in LevelTargets
    ensures u in LevelLiterals && u !in LevelMap
  {
  }

  lemma LevelTargetsLower(u: string)
    requires u in LevelTargets
    ensures NoUpper(u)
  {
  }

  /** A substituted level is already stripped and lower case. */
  lemma LevelTargetsClean(u: string)
    requires u in LevelTargets
    ensures Lower(Strip(u)) == u
  {
    LevelTargetsLower(u);
    assert u[0] in "jsl" && u[|u| - 1] in "rd";
    StripUnchanged(u);
    LowerOfNoUpper(u);
  }

  /** _norm_level: strip, lower-case, then substitute through the level map. */
  function NormLevel(v: Value): (r: Value)
    ensures !v.Str? ==> r == v
    ensures v.Str? ==> r.Str? && r.s !in LevelMap && NoUpper(r.s)
    ensures v.Str? && Lower(Strip(v.s)) in LevelMap ==> r.s in LevelLiterals
  {
    if v.Str? then
      var t := Lower(Strip(v.s));
      if t in LevelMap then
        LevelMapInto(t);
        LevelTargetsFinal(LevelMap[t]);
        LevelTargetsLower(LevelMap[t]);
        Str(LevelMap[t])
      else
        Str(t)
    else v
  }

  /** The substitution: a mapped level becomes its target, any other level stays as the cleaned text. */
  lemma NormLevelSubstitutes(s: string)
    ensures Lower(Strip(s)) in LevelMap ==> NormLevel(Str(s)) == Str(LevelMap[Lower(Strip(s))])
    ensures Lower(Strip(s)) !in LevelMap ==> NormLevel(Str(s)) == Str(Lower(Strip(s)))
  {
  }

  /** Normalising an already normalised level changes nothing. */
  lemma NormLevelIdempotent(v: Value)
    ensures NormLevel(NormLevel(v)) == NormLevel(v)
  {
    if v.Str? {
      var t := Lower(Strip(v.s));
      var u := NormLevel(v).s;
      if t in LevelMap {
        LevelMapInto(t);
        LevelTargetsClean(u);
      } else {
        LowerStripIdempotent(v.s);
      }
    }
  }

  predicate NotEmpty(s: string) {
    s != ""
  }

  /**
   * The stripped, non-empty comma pieces: [p.strip() for p in parts if p.strip()].
   * Every part is stripped, and the non-empty results are kept in order.
   */
  function CleanParts(parts: seq<string>): (r: seq<string>)
    ensures r == Filter(NotEmpty, MapSeq(Strip, parts))
    ensures |r| <= |parts|
    ensures forall x :: x in r ==> x != "" && Strip(x) == x
    decreases |parts|
  {
    if parts == [] then []
    else
      var p := Strip(parts[0]);
      StripIdempotent(parts[0]);
      var rest := CleanParts(parts[1..]);
      MapSeqCons(Strip, parts);
      if p != "" then [p] + rest else rest
  }

  /** The pieces kept are exactly the pieces whose stripped form is not empty, stripped. */
  lemma CleanPartsMembers(parts: seq<string>)
    ensures forall x :: x in CleanParts(parts) <==> exists i :: 0 <= i < |parts| && x == Strip(parts[i]) && x != ""
  {
    var m := MapSeq(Strip, parts);
    var r := CleanParts(parts);
    forall x ensures x in r <==> exists i :: 0 <= i < |parts| && x == Strip(parts[i]) && x != "" {
      assert x in r <==> multiset(r)[x] > 0;
      assert x in m <==> multiset(m)[x] > 0;
      if x in m {
        var i :| 0 <= i < |m| && m[i] == x;
        assert x == Strip(parts[i]);
      }
      if exists i :: 0 <= i < |parts| && x == Strip(parts[i]) && x != "" {
        var i :| 0 <= i < |parts| && x == Strip(parts[i]) && x != "";
        assert m[i] == x;
      }
    }
  }

  /** Stripping cannot bring in a comma: the pieces of a split keep none. */
  lemma {:induction false} CleanPartsNoComma(parts: seq<string>)
    requires forall x :: x in parts ==> ',' !in x
    ensures forall x :: x in CleanParts(parts) ==> ',' !in x
    decreases |parts|
  {
    if parts != [] {
      StripChars(parts[0]);
      CleanPartsNoComma(parts[1..]);
    }
  }

  /** The pieces cut from a single-spaced text are single-spaced. */
  lemma CleanPiecesSingleSpaced(parts: seq<string>)
    requires forall x :: x in parts ==> SingleSpaced(x)
    ensures forall p :: p in CleanParts(parts) ==> SingleSpaced(p)
  {
    CleanPartsMembers(parts);
    forall p | p in CleanParts(parts) ensures SingleSpaced(p) {
      var i :| 0 <= i < |parts| && p == Strip(parts[i]) && p != "";
      assert parts[i] in parts;
      StripSingleSpaced(parts[i]);
    }
  }

  /** A piece of a normalised location: non-empty, stripped, without a comma. */
  predicate CleanPiece(p: string) {
    p != "" && Strip(p) == p && ',' !in p
  }

  /** The location text before the comma rule: stripped, whitespace runs to one space, title case. */
  function LocationText(s: string): string {
    Title(SubRuns(Strip(s), IsSpace, ' '))
  }

  /** The cleaned location text is single-spaced and has no whitespace at either end. */
  lemma LocationTextClean(s: string)
    ensures SingleSpaced(LocationText(s))
    ensures Strip(LocationText(s)) == LocationText(s)
  {
    var u := Strip(s);
    var w := SubRuns(u, IsSpace, ' ');
    SubRunsSingleSpaced(u);
    TitleSingleSpaced(w);
    if u != [] {
      SubRunsLast(u, IsSpace, ' ');
    }
    StripUnchanged(LocationText(s));
  }

  /** A piece fit to be joined: non-empty, stripped and single-spaced. */
  predicate SpacedPiece(p: string) {
    p != "" && Trimmed(p) && SingleSpaced(p)
  }

  lemma CommaSeparatorSpaced()
    ensures SingleSpaced(", ")
  {
    assert forall c :: c in ", " ==> c == ',' || c == ' ';
  }

  /** Joining such pieces with ", " gives a stripped, single-spaced text that starts with the first piece. */
  lemma {:induction false} JoinPiecesClean(ps: seq<string>)
    requires forall i :: 0 <= i < |ps| ==> SpacedPiece(ps[i])
    ensures SingleSpaced(Join(ps, ", ")) && Trimmed(Join(ps, ", "))
    ensures ps != [] ==> Join(ps, ", ") != [] && ps[0] != [] && Join(ps, ", ")[0] == ps[0][0]
    decreases |ps|
  {
    if |ps| > 1 {
      assert SpacedPiece(ps[0]) && SpacedPiece(ps[1]);
      JoinPiecesClean(ps[1..]);
      var j := Join(ps[1..], ", ");
      var a := ps[0] + ", ";
      CommaSeparatorSpaced();
      SingleSpacedConcat(ps[0], ", ");
      assert a[|a| - 1] == ' ' && j[0] == ps[1][0];
      SingleSpacedConcat(a, j);
      assert Join(ps, ", ") == a + j;
    } else if |ps| == 1 {
      assert SpacedPiece(ps[0]);
    }
  }

  /** The comma rule applied to a single-spaced text gives a stripped, single-spaced text. */
  lemma CommaJoinClean(t: string)
    requires SingleSpaced(t)
    ensures SingleSpaced(Join(CleanParts(Split(t, ',')), ", "))
    ensures Strip(Join(CleanParts(Split(t, ',')), ", ")) == Join(CleanParts(Split(t, ',')), ", ")
  {
    var parts := Split(t, ',');
    var ps := CleanParts(parts);
    SplitSingleSpaced(t, ',');
    CleanPiecesSingleSpaced(parts);
    forall i | 0 <= i < |ps| ensures SpacedPiece(ps[i]) {
      assert ps[i] in ps;
      StripFixedTrimmed(ps[i]);
    }
    JoinPiecesClean(ps);
    StripFixedTrimmed(Join(ps, ", "));
  }

  /** What the validator returns for a string: the cleaned text, or its comma pieces joined. */
  lemma LocationResultClean(s: string)
    ensures var t := LocationText(s);
      var o := if ',' in t then Join(CleanParts(Split(t, ',')), ", ") else t;
      SingleSpaced(o) && Strip(o) == o
  {
    LocationTextClean(s);
    var t := LocationText(s);
    if ',' in t {
      CommaJoinClean(t);
    }
  }

  /**
   * _norm_location: with a comma, the pieces are trimmed, empty ones
   * dropped, and the rest joined with ", "; otherwise the cleaned text.
   */
  function NormLocation(v: Value): (r: Value)
    ensures !v.Str? ==> r == v
    ensures v.Str? && ',' !in LocationText(v.s) ==> r == Str(LocationText(v.s))
    ensures v.Str? && ',' in LocationText(v.s) ==>
      exists ps: seq<string> :: r == Str(Join(ps, ", ")) && forall p :: p in ps ==> CleanPiece(p)
    ensures v.Str? && ',' in LocationText(v.s) ==>
      r == Str(Join(CleanParts(Split(LocationText(v.s), ',')), ", "))
    ensures v.Str? ==> r.Str? && SingleSpaced(r.s) && Strip(r.s) == r.s
  {
    if v.Str? then
      var t := LocationText(v.s);
      LocationResultClean(v.s);
      if ',' in t then
        var ps := CleanParts(Split(t, ','));
        CleanPartsNoComma(Split(t, ','));
        assert forall p :: p in ps ==> CleanPiece(p);
        Str(Join(ps, ", "))
      else Str(t)
    else v
  }

  /** With a comma, the joined pieces are exactly the comma pieces whose stripped form is not empty, stripped. */
  lemma NormLocationPieces(s: string)
    requires ',' in LocationText(s)
    ensures exists ps: seq<string> ::
      && NormLocation(Str(s)) == Str(Join(ps, ", "))
      && (forall x :: x in ps <==>
            (exists i :: 0 <= i < |Split(LocationText(s), ',')| && x == Strip(Split(LocationText(s), ',')[i]) && x != ""))
  {
    var parts := Split(LocationText(s), ',');
    CleanPartsMembers(parts);
    assert NormLocation(Str(s)) == Str(Join(CleanParts(parts), ", "));
  }

  /** _normalize_role: None stays None, a string is classified, anything else is rejected. */
  function NormalizeRole(v: Value): (r: Result<Value, string>)
    ensures v.Null? ==> r == Success(Null)
    ensures v.Str? ==> r.Success? && r.value.Str? && IsLowerSnake(r.value.s)
    ensures v.Str? ==> r == Success(Str(FuzzyRoleMapper(v.s)))
    ensures !v.Null? && !v.Str? ==> r.Failure?
  {
    if v.Null? then Success(Null)
    else if v.Str? then
      Success(Str(FuzzyRoleMapper(v.s)))
    else Failure("role must be a string")
  }

  // ---------------------------------------------------------------------
  // _normalize_array
  // ---------------------------------------------------------------------

  /** The elements the validator iterates over: none for None, the string itself, or the list. */
  function Entries(v: Value): seq<Value> {
    if v.Str? then [v]
    else if v.List? then v.items
    else []
  }

  /** The key of one entry under `key`, when it is a string with a non-empty key. */
  function NormEntry(y: Value, key: string -> string): seq<string> {
    if y.Str? && key(y.s) != "" then [key(y.s)] else []
  }

  /** The accumulated `out` list: the non-empty keys of the string entries, in order. */
  function NormItems(xs: seq<Value>, key: string -> string): seq<string>
    decreases |xs|
  {
    if xs == [] then [] else NormItems(xs[..|xs| - 1], key) + NormEntry(xs[|xs| - 1], key)
  }

  /** The keys collected are those of the entries, and nothing else. */
  lemma {:induction false} NormItemsMembers(xs: seq<Value>, key: string -> string)
    ensures forall x :: x in NormItems(xs, key) <==> exists j :: 0 <= j < |xs| && x in NormEntry(xs[j], key)
    decreases |xs|
  {
    if xs != [] {
      var init := xs[..|xs| - 1];
      NormItemsMembers(init, key);
      assert forall j :: 0 <= j < |init| ==> init[j] == xs[j];
    }
  }

  /** Every collected key is a non-empty lower_snake_case key. */
  lemma NormEntryShape(y: Value)
    ensures forall x :: x in NormEntry(y, ToLowerSnake) ==> x != "" && IsLowerSnake(x)
  {
    if y.Str? {
      ToLowerSnakeShape(y.s);
    }
  }

  /** Every collected key is a non-empty lower_snake_case key. */
  lemma NormItemsShape(xs: seq<Value>)
    ensures forall x :: x in NormItems(xs, ToLowerSnake) ==> x != "" && IsLowerSnake(x)
  {
    NormItemsMembers(xs, ToLowerSnake);
    forall x | x in NormItems(xs, ToLowerSnake) ensures x != "" && IsLowerSnake(x) {
      var j :| 0 <= j < |xs| && x in NormEntry(xs[j], ToLowerSnake);
      NormEntryShape(xs[j]);
    }
  }

  /** Keys already in lower_snake_case map to themselves. */
  lemma MapLowerSnakeFixed(keys: seq<string>)
    requires forall x :: x in keys ==> IsLowerSnake(x)
    ensures MapLowerSnake(keys) == keys
  {
    forall j | 0 <= j < |keys| ensures MapLowerSnake(keys)[j] == keys[j] {
      assert keys[j] in keys;
      ToLowerSnakeFixpoint(keys[j]);
    }
  }

  /** One more entry appends its key, if any, to the collected keys. */
  lemma NormItemsStep(items: seq<Value>, i: nat)
    requires i < |items|
    ensures NormItems(items[..i + 1], ToLowerSnake) == NormItems(items[..i], ToLowerSnake) + NormEntry(items[i], ToLowerSnake)
  {
    assert items[..i + 1][..i] == items[..i];
  }

  /** The deduplicated keys of the entries: sorted, clean, and exactly the entries' keys. */
  lemma NormalizedKeys(items: seq<Value>)
    ensures StrictlyIncreasing(DedupedKeys(NormItems(items, ToLowerSnake)))
    ensures forall x :: x in DedupedKeys(NormItems(items, ToLowerSnake)) ==> x != "" && IsLowerSnake(x)
    ensures forall x :: x in DedupedKeys(NormItems(items, ToLowerSnake)) <==>
      exists j :: 0 <= j < |items| && x in NormEntry(items[j], ToLowerSnake)
  {
    var out := NormItems(items, ToLowerSnake);
    NormItemsMembers(items, ToLowerSnake);
    NormItemsShape(items);
    DedupedKeysSpec(out);
    MapLowerSnakeFixed(out);
  }

  /** The loop of `_normalize_array` that appends the non-empty key of every string entry to `out`. */
  method CollectKeys(items: seq<Value>) returns (out: seq<string>)
    ensures out == NormItems(items, ToLowerSnake)
  {
    out := [];
    for i := 0 to |items|
      invariant out == NormItems(items[..i], ToLowerSnake)
    {
      NormItemsStep(items, i);
      var x := items[i];
      if x.Str? {
        var key := ToLowerSnake(x.s);
        if key != "" {
          out := out + [key];
        }
      }
    }
    assert items[..|items|] == items;
  }

  /**
   * None gives []; a string counts as a one-element list; non-string entries
   * and entries whose key is empty are dropped; the rest are deduplicated and
   * sorted. A value that is not iterable is rejected.
   */
  method NormalizeArray(v: Value) returns (r: Result<seq<string>, string>)
    ensures r.Success? <==> v.Null? || v.Str? || v.List?
    ensures r.Success? ==> StrictlyIncreasing(r.value)
    ensures r.Success? ==> forall x :: x in r.value ==> x != "" && IsLowerSnake(x)
    ensures r.Success? ==> forall x :: x in r.value <==> exists j :: 0 <= j < |Entries(v)| && x in NormEntry(Entries(v)[j], ToLowerSnake)
  {
    if v.Null? {
      return Success([]);
    }
    if !v.Str? && !v.List? {
      return Failure("value is not iterable");
    }
    var items := Entries(v);
    var out := CollectKeys(items);
    var keys := DedupeSorted(out);
    assert keys == DedupedKeys(NormItems(items, ToLowerSnake));
    assert StrictlyIncreasing(keys) && (forall x :: x in keys ==> x != "" && IsLowerSnake(x))
        && (forall x :: x in keys <==> exists j :: 0 <= j < |items| && x in NormEntry(items[j], ToLowerSnake)) by {
      NormalizedKeys(items);
    }
    return Success(keys);
  }
}
