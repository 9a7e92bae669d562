/** Skill extraction: tokenizing the job description, intersecting with the
    fixed taxonomy, and the sorted overlap and gap lists of one candidate. */
module Skills {
  import opened Text

  /** The canonical skill taxonomy `TECH_SKILLS`. */
  const TechSkills: set<string> := {
    "python", "java", "c++", "javascript", "sql",
    "aws", "docker", "kubernetes", "tensorflow", "pytorch",
    "react", "nodejs", "fastapi", "flask"
  }

  /** The token class `[A-Za-z+#.]`. */
  predicate IsTokenChar(c: char)
  {
    ('A' <= c <= 'Z') || ('a' <= c <= 'z') || c == '+' || c == '#' || c == '.'
  }

  /** `re.findall(r"[A-Za-z+#.]+", s[i..])`, scanning from index `i`. */
  function TokensFrom(s: string, i: nat): (r: seq<string>)
    requires i <= |s|
    ensures forall k :: 0 <= k < |r| ==> |r[k]| > 0 && forall c :: c in r[k] ==> IsTokenChar(c)
    decreases |s| - i
  {
    if i == |s| then []
    else if !IsTokenChar(s[i]) then TokensFrom(s, i + 1)
    else
      var e := RunEnd(s, i, IsTokenChar);
      [s[i..e]] + TokensFrom(s, e)
  }

  /** Every token is non-empty and holds only token characters, so neither
      `strip()` nor the filter on empty tokens changes anything. */
  function Tokens(s: string): (r: seq<string>)
    ensures forall k :: 0 <= k < |r| ==> |r[k]| > 0 && forall c :: c in r[k] ==> IsTokenChar(c)
  {
    TokensFrom(s, 0)
  }

  /** `s[a..b]` is a maximal run of token characters. */
  ghost predicate MaximalRun(s: string, a: int, b: int)
  {
    && 0 <= a < b <= |s|
    && (forall k :: a <= k < b ==> IsTokenChar(s[k]))
    && (a == 0 || !IsTokenChar(s[a - 1]))
    && (b == |s| || !IsTokenChar(s[b]))
  }

  /** No run of token characters straddles index `i`. */
  predicate AtBoundary(s: string, i: nat)
    requires i <= |s|
  {
    i == 0 || i == |s| || !IsTokenChar(s[i - 1]) || !IsTokenChar(s[i])
  }

  lemma {:induction false} TokensFromAreMaximalRuns(s: string, i: nat, t: string)
    requires i <= |s| && AtBoundary(s, i)
    ensures t in TokensFrom(s, i) <==> exists a, b :: i <= a && MaximalRun(s, a, b) && s[a..b] == t
    decreases |s| - i
  {
    if i == |s| {
    } else if !IsTokenChar(s[i]) {
      TokensFromAreMaximalRuns(s, i + 1, t);
      if exists a, b :: i <= a && MaximalRun(s, a, b) && s[a..b] == t {
        var a, b :| i <= a && MaximalRun(s, a, b) && s[a..b] == t;
        assert a != i;
      }
    } else {
      var e := RunEnd(s, i, IsTokenChar);
      assert TokensFrom(s, i) == [s[i..e]] + TokensFrom(s, e);
      TokensFromAreMaximalRuns(s, e, t);
      if t == s[i..e] {
        assert MaximalRun(s, i, e);
      }
      if exists a, b :: i <= a && MaximalRun(s, a, b) && s[a..b] == t {
        var a, b :| i <= a && MaximalRun(s, a, b) && s[a..b] == t;
        if a == i {
          RunEndUnique(s, i, IsTokenChar, b);
        } else {
          assert e <= a;
        }
      }
    }
  }

  /** The tokens are exactly the maximal runs of token characters. */
  lemma TokensAreMaximalRuns(s: string, t: string)
    ensures t in Tokens(s) <==> exists a, b :: MaximalRun(s, a, b) && s[a..b] == t
  {
    TokensFromAreMaximalRuns(s, 0, t);
  }

  /** Skills required by the posting: tokens of the lower-cased description
      that are in the taxonomy. `strip()` leaves a token unchanged, since a
      token holds no whitespace, and no token is empty. */
  function RequiredSkills(jobDescription: string): (r: set<string>)
    ensures r <= TechSkills
  {
    var tokens := Tokens(Lower(jobDescription));
    TechSkills * set t | t in tokens
  }

  /** Each required skill is a taxonomy token appearing as a maximal
      `[A-Za-z+#.]` run of the lower-cased description, and each such run that
      is in the taxonomy is required. */
  lemma RequiredSkillsAreMaximalRuns(jobDescription: string, t: string)
    ensures t in RequiredSkills(jobDescription) <==>
      t in TechSkills && exists a, b :: MaximalRun(Lower(jobDescription), a, b) && Lower(jobDescription)[a..b] == t
  {
    TokensAreMaximalRuns(Lower(jobDescription), t);
  }

  /** `set(map(str.lower, skills))`, with ASCII lower-casing. */
  function CandidateSkills(declared: seq<string>): (r: set<string>)
    ensures forall x :: x in r <==> exists k :: 0 <= k < |declared| && Lower(declared[k]) == x
  {
    set k | 0 <= k < |declared| :: Lower(declared[k])
  }

  /** The skill analysis of one candidate against one posting. */
  datatype SkillAnalysis = SkillAnalysis(
    required: set<string>,
    candidate: set<string>,
    overlaps: seq<string>,
    gaps: seq<string>)

  /** Every missing skill, sorted: `sorted(required - candidate)` before the cut at 10. */
  function AllGaps(required: set<string>, candidate: set<string>): (r: seq<string>)
    ensures Ascending(r)
    ensures forall x :: x in r <==> x in required && x !in candidate
  {
    SortedList(required - candidate)
  }

  /** The comparison of the required skills with the candidate's: the sorted
      overlap and the sorted gaps, cut at 10. */
  function CompareSkills(required: set<string>, candidate: set<string>): (r: SkillAnalysis)
    ensures r.required == required && r.candidate == candidate
    ensures Ascending(r.overlaps) && Ascending(r.gaps)
    ensures forall x :: x in r.overlaps <==> x in candidate && x in required
    ensures |r.overlaps| == |candidate * required|
    ensures forall x :: x in r.gaps ==> x in required && x !in candidate
    ensures |r.gaps| == if |required - candidate| <= 10 then |required - candidate| else 10
    ensures r.gaps <= AllGaps(required, candidate)
    ensures |required - candidate| <= 10 ==> |r.overlaps| + |r.gaps| == |required|
  {
    var all := AllGaps(required, candidate);
    var gaps := Take(all, 10);
    AscendingPrefix(all, |gaps|);
    SplitCardinality(required, candidate);
    SkillAnalysis(required, candidate, SortedList(candidate * required), gaps)
  }

  /** The skill analysis of one candidate against one posting: the overlaps
      are the taxonomy skills that are tokens of the lower-cased description
      and declared by the candidate; the gaps are taxonomy tokens of the
      description the candidate does not declare; both lists ascend. */
  function AnalyzeSkills(jobDescription: string, declared: seq<string>): (r: SkillAnalysis)
    ensures forall x :: x in r.overlaps <==>
      x in TechSkills && x in Tokens(Lower(jobDescription)) && x in CandidateSkills(declared)
    ensures forall x :: x in r.gaps ==>
      x in TechSkills && x in Tokens(Lower(jobDescription)) && x !in CandidateSkills(declared)
    ensures Ascending(r.overlaps) && Ascending(r.gaps)
  {
    CompareSkills(RequiredSkills(jobDescription), CandidateSkills(declared))
  }

  /** Overlaps and the full gap list are disjoint and together make up the
      required set. */
  lemma OverlapsAndGapsPartitionRequired(required: set<string>, candidate: set<string>)
    ensures var r := CompareSkills(required, candidate);
      var all := AllGaps(required, candidate);
      && (forall x :: x in r.overlaps ==> x !in all)
      && (forall x :: x in required <==> x in r.overlaps || x in all)
  {
  }

  /** The cut at 10 keeps the alphabetically first missing skills: a missing
      skill left out comes after every kept one. */
  lemma GapsAreFirstMissing(required: set<string>, candidate: set<string>, x: string)
    requires x in required && x !in candidate && x !in CompareSkills(required, candidate).gaps
    ensures forall g :: g in CompareSkills(required, candidate).gaps ==> LexLess(g, x)
  {
    var r := CompareSkills(required, candidate);
    var all := AllGaps(required, candidate);
    assert r.gaps == all[..|r.gaps|];
    BeyondPrefix(all, |r.gaps|, x);
  }

  /** In an ascending list, an element outside a prefix comes after all of it. */
  lemma BeyondPrefix(xs: seq<string>, n: nat, x: string)
    requires Ascending(xs) && n <= |xs|
    requires x in xs && x !in xs[..n]
    ensures forall g :: g in xs[..n] ==> LexLess(g, x)
  {
    var p :| 0 <= p < |xs| && xs[p] == x;
    assert n <= p;
    forall g | g in xs[..n] ensures LexLess(g, x) {
      var i :| 0 <= i < n && xs[..n][i] == g;
      assert xs[i] == g;
    }
  }

  /** `len(overlaps) / max(1, len(overlaps) + len(gaps))`. */
  function SkillMatch(overlapCount: nat, gapCount: nat): (r: real)
    ensures 0.0 <= r <= 1.0
    ensures overlapCount == 0 ==> r == 0.0
    ensures overlapCount > 0 && gapCount == 0 ==> r == 1.0
    ensures overlapCount > 0 ==> 0.0 < r
    ensures gapCount > 0 ==> r < 1.0
  {
    var denominator := if overlapCount + gapCount > 1 then overlapCount + gapCount else 1;
    overlapCount as real / denominator as real
  }

  /** While no more than 10 skills are missing, the skill match is the share of
      required skills the candidate has. */
  lemma SkillMatchIsShareOfRequired(required: set<string>, candidate: set<string>)
    requires |required - candidate| <= 10 && required != {}
    ensures var r := CompareSkills(required, candidate);
      SkillMatch(|r.overlaps|, |r.gaps|) == |r.overlaps| as real / |required| as real
  {
    var r := CompareSkills(required, candidate);
    SkillMatchOfTotal(|r.overlaps|, |r.gaps|, |required|);
  }

  /** With more than 10 skills missing, only 10 gaps are counted, so the skill
      match is the overlap count over the overlap count plus 10. */
  lemma SkillMatchWithManyGaps(required: set<string>, candidate: set<string>)
    requires |required - candidate| > 10
    ensures var r := CompareSkills(required, candidate);
      SkillMatch(|r.overlaps|, |r.gaps|) == |r.overlaps| as real / (|r.overlaps| + 10) as real
  {
    var r := CompareSkills(required, candidate);
    SkillMatchOfTotal(|r.overlaps|, |r.gaps|, |r.overlaps| + 10);
  }

  /** The skill match in terms of the required skills alone. */
  lemma SkillMatchOfRequired(required: set<string>, candidate: set<string>)
    ensures var r := CompareSkills(required, candidate);
      var common := candidate * required;
      SkillMatch(|r.overlaps|, |r.gaps|) ==
        if required == {} then 0.0
        else if |required - candidate| <= 10 then |common| as real / |required| as real
        else |common| as real / (|common| + 10) as real
  {
    if required == {} {
    } else if |required - candidate| <= 10 {
      SkillMatchIsShareOfRequired(required, candidate);
    } else {
      SkillMatchWithManyGaps(required, candidate);
    }
  }

  lemma SplitCardinality(a: set<string>, b: set<string>)
    ensures |a| == |b * a| + |a - b|
  {
    assert a == (b * a) + (a - b);
    assert (b * a) !! (a - b);
  }

  lemma SkillMatchOfTotal(overlapCount: nat, gapCount: nat, total: nat)
    requires overlapCount + gapCount == total > 0
    ensures SkillMatch(overlapCount, gapCount) == overlapCount as real / total as real
  {
  }

  /** The `strengths` list: one string naming up to five overlapping skills,
      or the generic fallback. */
  function Strengths(overlaps: seq<string>): (r: seq<string>)
    ensures |r| == 1
    ensures |overlaps| == 0 ==> r[0] == "General fit"
    ensures |overlaps| > 0 ==> r[0] == "Technical overlap: " + Join(Take(overlaps, 5), ", ")
  {
    if |overlaps| > 0 then ["Technical overlap: " + Join(Take(overlaps, 5), ", ")] else ["General fit"]
  }

  /** Each of the first five overlapping skills is named in the strengths string. */
  lemma StrengthsNameOverlaps(overlaps: seq<string>, i: nat)
    requires i < |overlaps| && i < 5
    ensures exists at :: OccursAt(overlaps[i], Strengths(overlaps)[0], at)
  {
    var head := Take(overlaps, 5);
    var prefix := "Technical overlap: ";
    JoinContainsItems(head, ", ", i);
    var joined := Join(head, ", ");
    var at: nat :| OccursAt(head[i], joined, at);
    OccursAfterPrefix(head[i], joined, at, prefix);
    assert Strengths(overlaps)[0] == prefix + joined;
  }

  /** A text made only of token characters is one token. */
  lemma SingleToken(s: string)
    requires |s| > 0 && forall k :: 0 <= k < |s| ==> IsTokenChar(s[k])
    ensures Tokens(s) == [s]
  {
    RunEndUnique(s, 0, IsTokenChar, |s|);
    assert TokensFrom(s, 0) == [s[0..|s|]] + TokensFrom(s, |s|);
    assert s[0..|s|] == s;
  }

  /** A token keeps a trailing '.', so "Python." names no taxonomy skill while
      "Python" does. */
  lemma TrailingPeriodIsPartOfToken()
    ensures RequiredSkills("Python.") == {}
    ensures RequiredSkills("Python") == {"python"}
  {
    assert Lower("Python.") == "python.";
    SingleToken("python.");
    assert Lower("Python") == "python";
    SingleToken("python");
  }

  /** A posting requiring Python and Docker and a candidate declaring Python
      and AWS overlap on "python" and miss "docker". */
  lemma ExampleAnalysis()
    ensures var r := CompareSkills({"python", "docker"}, {"python", "aws"});
      r.overlaps == ["python"] && r.gaps == ["docker"]
  {
    var r := CompareSkills({"python", "docker"}, {"python", "aws"});
    assert r.candidate * r.required == {"python"};
    assert r.required - r.candidate == {"docker"};
    assert |r.overlaps| == 1 && r.overlaps[0] in r.overlaps;
    assert |r.gaps| == 1 && r.gaps[0] in r.gaps;
  }

  /** Tokenizing from index `|u| + i` of `u + v` is tokenizing `v` from `i`. */
  lemma {:induction false} TokensFromConcat(u: string, v: string, i: nat)
    requires i <= |v|
    ensures TokensFrom(u + v, |u| + i) == TokensFrom(v, i)
    decreases |v| - i
  {
    var s := u + v;
    if i == |v| {
    } else if !IsTokenChar(v[i]) {
      assert s[|u| + i] == v[i];
      TokensFromConcat(u, v, i + 1);
    } else {
      var e := RunEnd(v, i, IsTokenChar);
      assert forall k :: |u| + i <= k < |u| + e ==> s[k] == v[k - |u|];
      assert |u| + e == |s| || s[|u| + e] == v[e];
      RunEndUnique(s, |u| + i, IsTokenChar, |u| + e);
      assert s[|u| + i..|u| + e] == v[i..e];
      TokensFromConcat(u, v, e);
    }
  }

  /** A word followed by a space is the first token of what follows. */
  lemma WordThenSpace(w: string, rest: string)
    requires |w| > 0 && forall k :: 0 <= k < |w| ==> IsTokenChar(w[k])
    ensures Tokens(w + " " + rest) == [w] + Tokens(rest)
  {
    var s := w + " " + rest;
    assert forall k :: 0 <= k < |w| ==> s[k] == w[k];
    assert s[|w|] == ' ';
    RunEndUnique(s, 0, IsTokenChar, |w|);
    assert s[0..|w|] == w;
    assert TokensFrom(s, 0) == [w] + TokensFrom(s, |w|);
    assert TokensFrom(s, |w|) == TokensFrom(s, |w| + 1);
    TokensFromConcat(w + " ", rest, 0);
  }

  /** A non-empty word of lower-case token characters. */
  predicate LowerWord(t: string)
  {
    |t| > 0 && forall k :: 0 <= k < |t| ==> IsTokenChar(t[k]) && !('A' <= t[k] <= 'Z')
  }

  /** Every taxonomy skill is a lower-case word. */
  lemma TaxonomyIsLowerWords()
    ensures forall t :: t in TechSkills ==> LowerWord(t)
  {
  }

  /** Every taxonomy skill is already lower-case and is one token, so a
      description consisting of just that skill requires exactly it. */
  lemma TaxonomySkillsAreTokens(t: string)
    requires t in TechSkills
    ensures Lower(t) == t && Tokens(t) == [t]
    ensures RequiredSkills(t) == {t}
  {
    TaxonomyIsLowerWords();
    assert Lower(t) == t;
    SingleToken(t);
    assert (set x | x in [t]) == {t};
  }

  /** A non-empty word of token characters. */
  predicate TokenWord(w: string)
  {
    |w| > 0 && forall k :: 0 <= k < |w| ==> IsTokenChar(w[k])
  }

  /** Words of token characters joined by single spaces tokenize back into
      those words. */
  lemma {:induction false} TokensOfSpacedWords(words: seq<string>)
    requires |words| > 0 && forall k :: 0 <= k < |words| ==> TokenWord(words[k])
    ensures Tokens(Join(words, " ")) == words
    decreases |words|
  {
    if |words| == 1 {
      SingleToken(words[0]);
    } else {
      assert TokenWord(words[0]);
      TokensOfSpacedWords(words[1..]);
      WordThenSpace(words[0], Join(words[1..], " "));
    }
  }

  /** Each word lower-cased. */
  function LowerWords(words: seq<string>): (r: seq<string>)
    ensures |r| == |words| && forall k :: 0 <= k < |words| ==> r[k] == Lower(words[k])
  {
    seq(|words|, k requires 0 <= k < |words| => Lower(words[k]))
  }

  /** Lower-casing words joined by spaces lower-cases each word. */
  lemma {:induction false} LowerSpacedWords(words: seq<string>)
    requires |words| > 0
    ensures Lower(Join(words, " ")) == Join(LowerWords(words), " ")
    decreases |words|
  {
    if |words| > 1 {
      LowerSpacedWords(words[1..]);
      assert LowerWords(words)[1..] == LowerWords(words[1..]);
      LowerConcat(words[0] + " ", Join(words[1..], " "));
      LowerConcat(words[0], " ");
    }
  }

  /** The words of "We need Python and Docker experience". */
  const ExampleWords: seq<string> := ["We", "need", "Python", "and", "Docker", "experience"]

  /** The description "We need Python and Docker experience", given as its
      words joined by single spaces, requires exactly python and docker. */
  lemma ExampleDescription()
    ensures RequiredSkills(Join(ExampleWords, " ")) == {"python", "docker"}
  {
    var lowered := LowerWords(ExampleWords);
    ExampleLowerWords();
    LowerSpacedWords(ExampleWords);
    TokensOfSpacedWords(lowered);
    assert Tokens(Lower(Join(ExampleWords, " "))) == lowered;
    ExampleSkillSet(lowered);
  }

  /** The example words joined by spaces are the sentence itself. */
  lemma ExampleWordsText()
    ensures Join(ExampleWords, " ") == "We need Python and Docker experience"
  {
    JoinOfExampleWords(ExampleWords);
    ExampleSentence();
  }

  lemma JoinOfExampleWords(w: seq<string>)
    requires w == ExampleWords
    ensures Join(w, " ") ==
      "We" + " " + ("need" + " " + ("Python" + " " + ("and" + " " + ("Docker" + " " + "experience"))))
  {
    assert Join(w[4..], " ") == "Docker" + " " + Join(w[5..], " ");
    assert Join(w[3..], " ") == "and" + " " + Join(w[4..], " ") by { assert w[3..][1..] == w[4..]; }
    assert Join(w[2..], " ") == "Python" + " " + Join(w[3..], " ") by { assert w[2..][1..] == w[3..]; }
    assert Join(w[1..], " ") == "need" + " " + Join(w[2..], " ") by { assert w[1..][1..] == w[2..]; }
  }

  lemma ExampleSentence()
    ensures "We" + " " + ("need" + " " + ("Python" + " " + ("and" + " " + ("Docker" + " " + "experience"))))
      == "We need Python and Docker experience"
  {
  }

  lemma ExampleSkillSet(words: seq<string>)
    requires words == ["we", "need", "python", "and", "docker", "experience"]
    ensures TechSkills * (set t | t in words) == {"python", "docker"}
  {
    assert (set t | t in words) == {"we", "need", "python", "and", "docker", "experience"};
  }

  lemma ExampleLowerWords()
    ensures LowerWords(ExampleWords) == ["we", "need", "python", "and", "docker", "experience"]
    ensures forall k :: 0 <= k < |ExampleWords| ==> TokenWord(LowerWords(ExampleWords)[k])
  {
    assert Lower("We") == "we";
    assert Lower("Python") == "python";
    assert Lower("Docker") == "docker";
    assert Lower("need") == "need" && Lower("and") == "and" && Lower("experience") == "experience";
  }
}
