/** The e-mail anonymizer: `re.sub` of the pattern
    `[A-Za-z0-9._%+-]+@[A-Za-z0-9.-]+` by the literal "[EMAIL]", written as
    an explicit left-to-right scanner, with proofs that no e-mail is left
    afterwards, that text without one is untouched, and that the scanner is
    idempotent. */
module Anonymizer {
  import opened Text

  const Placeholder: string := "[EMAIL]"

  /** The local-part class `[A-Za-z0-9._%+-]`. */
  predicate IsLocalChar(c: char)
  {
    ('A' <= c <= 'Z') || ('a' <= c <= 'z') || ('0' <= c <= '9')
    || c == '.' || c == '_' || c == '%' || c == '+' || c == '-'
  }

  /** The domain class `[A-Za-z0-9.-]`. */
  predicate IsDomainChar(c: char)
  {
    ('A' <= c <= 'Z') || ('a' <= c <= 'z') || ('0' <= c <= '9') || c == '.' || c == '-'
  }

  /** The scanner. At a local-part character it takes the maximal run of them;
      if that run is followed by '@' and a domain character it is the start of
      the leftmost match, the domain is consumed greedily and the whole match
      becomes the placeholder. Otherwise the run is copied: no match can start
      inside it, since every later start in the run reaches the same end. */
  function Anonymize(s: string): (r: string)
    ensures |s| == 0 <==> |r| == 0
    ensures |s| > 0 ==> r[0] == s[0] || r[0] == Placeholder[0]
    decreases |s|
  {
    if |s| == 0 then ""
    else if !IsLocalChar(s[0]) then [s[0]] + Anonymize(s[1..])
    else
      var q := RunEnd(s, 0, IsLocalChar);
      if q + 1 < |s| && s[q] == '@' && IsDomainChar(s[q + 1]) then
        Placeholder + Anonymize(s[RunEnd(s, q + 1, IsDomainChar)..])
      else
        s[..q] + Anonymize(s[q..])
  }

  // ---------------------------------------------------------------------------
  // What "contains an e-mail" means.

  /** Every character of `w` is a local-part character. */
  predicate AllLocal(w: string)
  {
    forall k :: 0 <= k < |w| ==> IsLocalChar(w[k])
  }

  /** Every character of `w` is a domain character. */
  predicate AllDomain(w: string)
  {
    forall k :: 0 <= k < |w| ==> IsDomainChar(w[k])
  }

  /** `w` as a whole matches the pattern, with its '@' at index `k`. */
  predicate MatchesWithAt(w: string, k: int)
  {
    0 < k && k + 1 < |w| && w[k] == '@' && AllLocal(w[..k]) && AllDomain(w[k + 1..])
  }

  /** `w` as a whole matches the e-mail pattern. */
  ghost predicate MatchesPattern(w: string)
  {
    exists k :: MatchesWithAt(w, k)
  }

  /** Some substring of `t` matches the e-mail pattern: `re.search` would succeed. */
  ghost predicate ContainsEmail(t: string)
  {
    exists i, j :: 0 <= i <= j <= |t| && MatchesPattern(t[i..j])
  }

  /** An '@' at index `k` of `t` with a local-part character just before it
      and a domain character just after it. */
  predicate AtSignMatch(t: string, k: int)
  {
    0 < k < |t| - 1 && t[k] == '@' && IsLocalChar(t[k - 1]) && IsDomainChar(t[k + 1])
  }

  predicate HasAtSignMatch(t: string)
  {
    exists k :: 0 < k < |t| - 1 && AtSignMatch(t, k)
  }

  /** A string contains an e-mail exactly when some '@' in it has a local-part
      character before it and a domain character after it: the shortest
      matches are three characters long. */
  lemma ContainsEmailIff(t: string)
    ensures ContainsEmail(t) <==> HasAtSignMatch(t)
  {
    if ContainsEmail(t) {
      var i, j :| 0 <= i <= j <= |t| && MatchesPattern(t[i..j]);
      var w := t[i..j];
      var k :| MatchesWithAt(w, k);
      assert w[..k][k - 1] == w[k - 1];
      assert w[k + 1..][0] == w[k + 1];
      assert AtSignMatch(t, i + k);
    }
    if HasAtSignMatch(t) {
      var k :| 0 < k < |t| - 1 && AtSignMatch(t, k);
      var w := t[k - 1..k + 2];
      assert MatchesWithAt(w, 1);
      assert MatchesPattern(w);
    }
  }

  lemma {:induction false} SuffixMatch(s: string, j: nat)
    requires j <= |s| && HasAtSignMatch(s[j..])
    ensures HasAtSignMatch(s)
  {
    var k :| 0 < k < |s[j..]| - 1 && AtSignMatch(s[j..], k);
    assert AtSignMatch(s, k + j);
  }

  // ---------------------------------------------------------------------------
  // Properties of the scanner.

  /** A character that is not a local-part character can be put in front
      without creating a match. */
  lemma {:induction false} NonLocalPrefix(c: char, t: string)
    requires !IsLocalChar(c) && !HasAtSignMatch(t)
    ensures !HasAtSignMatch([c] + t)
  {
    var r := [c] + t;
    forall k | 0 < k < |r| - 1 ensures !AtSignMatch(r, k) {
      if k > 1 {
        assert r[k - 1..k + 2] == t[k - 2..k + 1];
        assert !AtSignMatch(t, k - 1);
      }
    }
  }

  /** The placeholder can be put in front without creating a match: it has no
      '@' and ends in ']', which is not a local-part character. */
  lemma {:induction false} PlaceholderPrefix(t: string)
    requires !HasAtSignMatch(t)
    ensures !HasAtSignMatch(Placeholder + t)
  {
    var r := Placeholder + t;
    var n := |Placeholder|;
    forall k | 0 < k < |r| - 1 ensures !AtSignMatch(r, k) {
      if k > n {
        assert r[k - 1] == t[k - n - 1] && r[k] == t[k - n] && r[k + 1] == t[k - n + 1];
        assert !AtSignMatch(t, k - n);
      } else if k == n {
        assert r[k - 1] == ']';
      } else {
        assert r[k] == Placeholder[k];
      }
    }
  }

  /** A run of local-part characters can be put in front of a text without a
      match, unless the text starts with '@' and a domain character. */
  lemma {:induction false} LocalRunPrefix(w: string, t: string)
    requires AllLocal(w) && !HasAtSignMatch(t)
    requires |t| < 2 || t[0] != '@' || !IsDomainChar(t[1])
    ensures !HasAtSignMatch(w + t)
  {
    var r := w + t;
    var n := |w|;
    forall k | 0 < k < |r| - 1 ensures !AtSignMatch(r, k) {
      if k > n {
        assert r[k - 1] == t[k - n - 1] && r[k] == t[k - n] && r[k + 1] == t[k - n + 1];
        assert !AtSignMatch(t, k - n);
      } else if k == n {
        assert r[k] == t[0] && r[k + 1] == t[1];
      } else {
        assert r[k] == w[k];
      }
    }
  }

  /** After anonymization no '@' has a local-part character before it and a
      domain character after it. */
  lemma {:induction false} NoAtSignMatchAfter(s: string)
    ensures !HasAtSignMatch(Anonymize(s))
    decreases |s|
  {
    if |s| == 0 {
    } else if !IsLocalChar(s[0]) {
      NoAtSignMatchAfter(s[1..]);
      NonLocalPrefix(s[0], Anonymize(s[1..]));
    } else {
      var q := RunEnd(s, 0, IsLocalChar);
      if q + 1 < |s| && s[q] == '@' && IsDomainChar(s[q + 1]) {
        var e := RunEnd(s, q + 1, IsDomainChar);
        NoAtSignMatchAfter(s[e..]);
        PlaceholderPrefix(Anonymize(s[e..]));
      } else {
        var t := Anonymize(s[q..]);
        NoAtSignMatchAfter(s[q..]);
        if q < |s| {
          assert s[q..][0] == s[q] && s[q..][1..] == s[q + 1..];
          assert t == [s[q]] + Anonymize(s[q + 1..]);
          if q + 1 < |s| {
            assert s[q + 1..][0] == s[q + 1];
          }
        }
        LocalRunPrefix(s[..q], t);
      }
    }
  }

  /** No substring of the output matches the e-mail pattern. */
  lemma NoEmailRemains(s: string)
    ensures !ContainsEmail(Anonymize(s))
  {
    NoAtSignMatchAfter(s);
    ContainsEmailIff(Anonymize(s));
  }

  lemma {:induction false} UnchangedWithoutAtSignMatch(s: string)
    requires !HasAtSignMatch(s)
    ensures Anonymize(s) == s
    decreases |s|
  {
    if |s| == 0 {
    } else if !IsLocalChar(s[0]) {
      if HasAtSignMatch(s[1..]) {
        SuffixMatch(s, 1);
      }
      UnchangedWithoutAtSignMatch(s[1..]);
    } else {
      var q := RunEnd(s, 0, IsLocalChar);
      if q + 1 < |s| && s[q] == '@' && IsDomainChar(s[q + 1]) {
        assert AtSignMatch(s, q);
      } else {
        if HasAtSignMatch(s[q..]) {
          SuffixMatch(s, q);
        }
        UnchangedWithoutAtSignMatch(s[q..]);
        assert s[..q] + s[q..] == s;
      }
    }
  }

  /** Text is returned unchanged exactly when it contains no e-mail. */
  lemma UnchangedIff(s: string)
    ensures Anonymize(s) == s <==> !ContainsEmail(s)
  {
    ContainsEmailIff(s);
    NoEmailRemains(s);
    if !ContainsEmail(s) {
      UnchangedWithoutAtSignMatch(s);
    }
  }

  /** In particular, text without any '@' is returned unchanged. */
  lemma UnchangedWithoutAtSign(s: string)
    requires '@' !in s
    ensures Anonymize(s) == s
  {
    UnchangedWithoutAtSignMatch(s);
  }

  /** Anonymizing twice is anonymizing once. */
  lemma Idempotent(s: string)
    ensures Anonymize(Anonymize(s)) == Anonymize(s)
  {
    NoAtSignMatchAfter(s);
    UnchangedWithoutAtSignMatch(Anonymize(s));
  }

  /** No '@' among the first `n` characters of `t` starts a match. */
  predicate NoMatchBefore(t: string, n: int)
  {
    forall k :: 0 < k < n ==> !AtSignMatch(t, k)
  }

  /** Dropping `j` characters from the front keeps the absence of matches. */
  lemma NoMatchBeforeSuffix(t: string, j: nat, n: int)
    requires j <= n <= |t| && NoMatchBefore(t, n)
    ensures NoMatchBefore(t[j..], n - j)
  {
    forall k | 0 < k < n - j ensures !AtSignMatch(t[j..], k) {
      assert t[j..][k - 1] == t[k + j - 1] && t[j..][k] == t[k + j];
      assert k + 1 < |t[j..]| ==> t[j..][k + 1] == t[k + j + 1];
      assert !AtSignMatch(t, k + j);
    }
  }

  /** Text in front of the leftmost match is copied unchanged: no '@' in it
      starts a match, and it does not end in a local-part character (which
      would belong to the match). */
  lemma {:induction false} KeepsTextBeforeMatch(p: string, s: string)
    requires NoMatchBefore(p + s, |p|)
    requires p == [] || !IsLocalChar(p[|p| - 1])
    ensures Anonymize(p + s) == p + Anonymize(s)
    decreases |p|
  {
    if p == [] {
      assert p + s == s;
    } else if !IsLocalChar(p[0]) {
      NoMatchBeforeSuffix(p + s, 1, |p|);
      assert (p + s)[1..] == p[1..] + s;
      KeepsTextBeforeMatch(p[1..], s);
      KeepsNonLocalChar(p, s);
    } else {
      var q := RunEnd(p, 0, IsLocalChar);
      assert q < |p|;
      NoMatchBeforeSuffix(p + s, q, |p|);
      assert (p + s)[q..] == p[q..] + s;
      KeepsTextBeforeMatch(p[q..], s);
      assert !AtSignMatch(p + s, q);
      KeepsLocalRun(p, s, q);
    }
  }

  /** The non-local step of `KeepsTextBeforeMatch`. */
  lemma KeepsNonLocalChar(p: string, s: string)
    requires |p| > 0 && !IsLocalChar(p[0])
    requires Anonymize(p[1..] + s) == p[1..] + Anonymize(s)
    ensures Anonymize(p + s) == p + Anonymize(s)
  {
    CopiesChar(p, s);
    SplitAt(p, 1, Anonymize(s));
    assert p[..1] == [p[0]];
  }

  /** The local-run step of `KeepsTextBeforeMatch`. */
  lemma KeepsLocalRun(p: string, s: string, q: nat)
    requires 0 < q < |p| && (forall k :: 0 <= k < q ==> IsLocalChar(p[k]))
    requires !IsLocalChar(p[q]) && !AtSignMatch(p + s, q)
    requires Anonymize(p[q..] + s) == p[q..] + Anonymize(s)
    ensures Anonymize(p + s) == p + Anonymize(s)
  {
    CopiesLocalRunBefore(p, s, q);
    SplitAt(p, q, Anonymize(s));
  }

  lemma SplitAt(p: string, q: nat, x: string)
    requires q <= |p|
    ensures p[..q] + (p[q..] + x) == p + x
  {
    assert p[..q] + p[q..] == p;
  }

  lemma CopiesLocalRunBefore(p: string, s: string, q: nat)
    requires 0 < q < |p| && (forall k :: 0 <= k < q ==> IsLocalChar(p[k]))
    requires !IsLocalChar(p[q]) && !AtSignMatch(p + s, q)
    ensures Anonymize(p + s) == p[..q] + Anonymize(p[q..] + s)
  {
    var t := p + s;
    assert forall k :: 0 <= k <= q ==> t[k] == p[k];
    CopiesLocalRun(t, q);
    assert t[..q] == p[..q] && t[q..] == p[q..] + s;
  }

  /** A character that is not a local-part character is copied. */
  lemma CopiesChar(p: string, s: string)
    requires |p| > 0 && !IsLocalChar(p[0])
    ensures Anonymize(p + s) == [p[0]] + Anonymize(p[1..] + s)
  {
    assert (p + s)[0] == p[0] && (p + s)[1..] == p[1..] + s;
  }

  /** A run of local-part characters that is not followed by one, nor by an
      '@' that starts a match, is copied. */
  lemma CopiesLocalRun(t: string, q: nat)
    requires 0 < q < |t| && (forall k :: 0 <= k < q ==> IsLocalChar(t[k]))
    requires !IsLocalChar(t[q]) && !AtSignMatch(t, q)
    ensures Anonymize(t) == t[..q] + Anonymize(t[q..])
  {
    RunEndUnique(t, 0, IsLocalChar, q);
  }

  /** An '@' that starts no match is copied: "a@ b@c" keeps "a@ " and
      replaces "b@c". */
  lemma StrayAtSignIsKept()
    ensures Anonymize("a@ " + "b@c") == "a@ " + Placeholder
  {
    var p, s := "a@ ", "b@c";
    assert NoMatchBefore(p + s, |p|) by {
      assert (p + s)[2] == ' ';
    }
    KeepsTextBeforeMatch(p, s);
    ReplacesLeadingEmail("b", "c", "");
    assert "b" + "@" + "c" + "" == s;
  }

  /** A match at the front, local part `s[..q]` and domain `s[q + 1..e]`, is
      replaced by one placeholder and scanning resumes at `e`. */
  lemma ReplacesMatchAtStart(s: string, q: nat, e: nat)
    requires 0 < q && q + 1 < e <= |s|
    requires forall k :: 0 <= k < q ==> IsLocalChar(s[k])
    requires s[q] == '@'
    requires forall k :: q + 1 <= k < e ==> IsDomainChar(s[k])
    requires e == |s| || !IsDomainChar(s[e])
    ensures Anonymize(s) == Placeholder + Anonymize(s[e..])
  {
    RunEndUnique(s, 0, IsLocalChar, q);
    RunEndUnique(s, q + 1, IsDomainChar, e);
    AnonymizeMatch(s, q, e);
  }

  lemma AnonymizeMatch(s: string, q: nat, e: nat)
    requires 0 < |s| && IsLocalChar(s[0]) && RunEnd(s, 0, IsLocalChar) == q
    requires q + 1 < |s| && s[q] == '@' && IsDomainChar(s[q + 1])
    requires RunEnd(s, q + 1, IsDomainChar) == e
    ensures Anonymize(s) == Placeholder + Anonymize(s[e..])
  {
  }

  /** A whole e-mail at the front is replaced by one placeholder: the local
      run is maximal because '@' is not a local-part character, and the domain
      run is taken as far as it goes. */
  lemma ReplacesLeadingEmail(local: string, domain: string, rest: string)
    requires |local| > 0 && AllLocal(local)
    requires |domain| > 0 && AllDomain(domain)
    requires rest == [] || !IsDomainChar(rest[0])
    ensures Anonymize(local + "@" + domain + rest) == Placeholder + Anonymize(rest)
  {
    var s := local + "@" + domain + rest;
    var q := |local|;
    var e := q + 1 + |domain|;
    assert forall k :: 0 <= k < q ==> s[k] == local[k];
    assert forall k :: q + 1 <= k < e ==> s[k] == domain[k - q - 1];
    assert e == |s| || s[e] == rest[0];
    ReplacesMatchAtStart(s, q, e);
    assert s[e..] == rest;
  }
}
