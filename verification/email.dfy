/** The e-mail pattern `^[^\s@]+@[^\s@]+\.[^\s@]+$` that both registration
    forms apply, as a language (`MatchesPattern`) and as the scanner the
    validators use (`IsEmail`), with the lemma that the two agree. */
module Email {
  import opened Text

  /** A character allowed in each `[^\s@]+` run of the pattern. */
  predicate Plain(c: char) {
    !IsSpace(c) && c != '@'
  }

  /** Every character of `s[lo..hi]` is plain. */
  ghost predicate PlainBetween(s: string, lo: int, hi: int) {
    forall k :: lo <= k < hi && 0 <= k < |s| ==> Plain(s[k])
  }

  /** The language of the pattern: three non-empty plain runs, the first two
      separated by an '@' and the last two by a '.'. The middle run may itself
      contain dots, so `dot` may be any of them except the domain's first. */
  ghost predicate MatchesPattern(s: string) {
    exists at, dot ::
      && 0 < at && at + 1 < dot && dot + 1 < |s|
      && s[at] == '@' && s[dot] == '.'
      && PlainBetween(s, 0, at) && PlainBetween(s, at + 1, dot) && PlainBetween(s, dot + 1, |s|)
  }

  /** The first index of `c` in `s`, or `|s|` when there is none. */
  function IndexOf(s: string, c: char): (i: nat)
    ensures i <= |s|
    ensures i < |s| ==> s[i] == c
    ensures forall k :: 0 <= k < i ==> s[k] != c
    decreases |s|
  {
    if s == [] then 0
    else if s[0] == c then 0
    else 1 + IndexOf(s[1..], c)
  }

  /** The shape the pattern accepts, read off the string directly: no white
      space, exactly one '@' with something before it, and after it a domain
      holding a '.' that is neither its first nor its last character. */
  predicate IsEmail(s: string) {
    var at := IndexOf(s, '@');
    && (forall k | 0 <= k < |s| :: !IsSpace(s[k]))
    && 0 < at < |s|
    && '@' !in s[at + 1..]
    && var domain := s[at + 1..];
       |domain| >= 3 && '.' in domain[1..|domain| - 1]
  }

  /** An index before which `c` does not occur, holding `c`, is the first. */
  lemma IndexOfIsFirst(s: string, c: char, at: nat)
    requires at < |s| && s[at] == c
    requires forall k :: 0 <= k < at ==> s[k] != c
    ensures IndexOf(s, c) == at
  {
  }

  lemma PatternIsEmail(s: string)
    requires MatchesPattern(s)
    ensures IsEmail(s)
  {
    var at, dot :|
      && 0 < at && at + 1 < dot && dot + 1 < |s|
      && s[at] == '@' && s[dot] == '.'
      && PlainBetween(s, 0, at) && PlainBetween(s, at + 1, dot) && PlainBetween(s, dot + 1, |s|);
    IndexOfIsFirst(s, '@', at);
    assert forall k | 0 <= k < |s| :: !IsSpace(s[k]) by {
      forall k | 0 <= k < |s| ensures !IsSpace(s[k]) {
        if k != at && k != dot {
          assert Plain(s[k]);
        }
      }
    }
    var domain := s[at + 1..];
    assert '@' !in domain by {
      forall k | 0 <= k < |domain| ensures domain[k] != '@' {
        assert domain[k] == s[at + 1 + k];
        if at + 1 + k != dot {
          assert Plain(s[at + 1 + k]);
        }
      }
    }
    assert '.' in domain[1..|domain| - 1] by {
      assert domain[1..|domain| - 1][dot - at - 2] == '.';
    }
  }

  lemma EmailIsPattern(s: string)
    requires IsEmail(s)
    ensures MatchesPattern(s)
  {
    var at := IndexOf(s, '@');
    var domain := s[at + 1..];
    var m :| 0 <= m < |domain| - 2 && domain[1..|domain| - 1][m] == '.';
    var dot := at + 2 + m;
    assert s[dot] == '.';
    forall k | 0 <= k < |s| && k != at ensures Plain(s[k]) {
      assert !IsSpace(s[k]);
      if k > at {
        assert s[k] == domain[k - at - 1];
      }
    }
    assert PlainBetween(s, 0, at) && PlainBetween(s, at + 1, dot) && PlainBetween(s, dot + 1, |s|);
  }

  /** The scanner accepts exactly the language of the regular expression. */
  lemma EmailCharacterisation(s: string)
    ensures MatchesPattern(s) <==> IsEmail(s)
  {
    if MatchesPattern(s) {
      PatternIsEmail(s);
    }
    if IsEmail(s) {
      EmailIsPattern(s);
    }
  }
}
