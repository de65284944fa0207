/** String helpers shared by the validators, the message classifiers, the
    directory filter and the URL builder: whitespace, ASCII lower-casing,
    `trim`, `includes`, the `a.*b` regular-expression shape, `split`/`join`
    and decimal rendering of a count.

    JavaScript's `toLowerCase` and the `\s` class are Unicode-wide; here they
    are narrowed to ASCII letters and the six ASCII white-space characters. */
module Text {

  /** The characters taken as `\s` white space. */
  predicate IsSpace(c: char) {
    c == ' ' || c == '\t' || c == '\n' || c == '\r' || c == '\U{000B}' || c == '\U{000C}'
  }

  /** The characters that the regular-expression `.` refuses to match. */
  predicate IsLineTerminator(c: char) {
    c == '\n' || c == '\r' || c == '\U{2028}' || c == '\U{2029}'
  }

  function LowerChar(c: char): char {
    if 'A' <= c <= 'Z' then (c as int + 32) as char else c
  }

  /** `toLowerCase`, restricted to ASCII letters. */
  function Lower(s: string): (r: string)
    ensures |r| == |s|
    ensures forall i :: 0 <= i < |s| ==> r[i] == LowerChar(s[i])
  {
    seq(|s|, i requires 0 <= i < |s| => LowerChar(s[i]))
  }

  /** Every character of `s` is white space (`s.trim()` is falsy). */
  predicate IsBlank(s: string) {
    forall i | 0 <= i < |s| :: IsSpace(s[i])
  }

  function TrimStart(s: string): (r: string)
    ensures |r| <= |s| && r == s[|s| - |r|..]
    ensures r == [] || !IsSpace(r[0])
    ensures forall i :: 0 <= i < |s| - |r| ==> IsSpace(s[i])
    decreases |s|
  {
    if |s| > 0 && IsSpace(s[0]) then TrimStart(s[1..]) else s
  }

  function TrimEnd(s: string): (r: string)
    ensures |r| <= |s| && r == s[..|r|]
    ensures r == [] || !IsSpace(r[|r| - 1])
    ensures forall i :: |r| <= i < |s| ==> IsSpace(s[i])
    decreases |s|
  {
    if |s| > 0 && IsSpace(s[|s| - 1]) then TrimEnd(s[..|s| - 1]) else s
  }

  /** `s[i..j]` neither starts nor ends with white space and everything
      around it is white space. */
  ghost predicate TrimmedInfix(s: string, i: int, j: int) {
    0 <= i <= j <= |s| && IsBlank(s[..i]) && IsBlank(s[j..]) &&
    (i < j ==> !IsSpace(s[i]) && !IsSpace(s[j - 1]))
  }

  /** `r` is the trimmed infix of `s` that starts at index `lead`. */
  ghost predicate TrimmedAt(s: string, r: string, lead: int) {
    TrimmedInfix(s, lead, lead + |r|) && r == s[lead..lead + |r|]
  }

  /** `String.prototype.trim`: the infix of `s` left once the white space at
      both ends is cut away; it is empty exactly when `s` is blank. */
  function Trim(s: string): (r: string)
    ensures r == [] <==> IsBlank(s)
    ensures r != [] ==> !IsSpace(r[0]) && !IsSpace(r[|r| - 1])
    ensures |r| <= |s|
    ensures TrimmedAt(s, r, LeadingSpaces(s))
  {
    var t := TrimStart(s);
    var r := TrimEnd(t);
    TrimCuts(s, t, r);
    assert TrimmedAt(s, r, |s| - |t|);
    r
  }

  /** How many white-space characters `s` starts with. */
  function LeadingSpaces(s: string): nat {
    |s| - |TrimStart(s)|
  }

  /** Cutting the leading and then the trailing white space leaves an infix
      with blank surroundings. */
  lemma TrimCuts(s: string, t: string, r: string)
    requires |t| <= |s| && t == s[|s| - |t|..]
    requires forall i :: 0 <= i < |s| - |t| ==> IsSpace(s[i])
    requires |r| <= |t| && r == t[..|r|]
    requires forall i :: |r| <= i < |t| ==> IsSpace(t[i])
    requires t == [] || !IsSpace(t[0])
    ensures var lead := |s| - |t|;
      lead + |r| <= |s| && r == s[lead..lead + |r|] &&
      IsBlank(s[..lead]) && IsBlank(s[lead + |r|..])
    ensures r == [] <==> IsBlank(s)
  {
    var lead := |s| - |t|;
    forall k | 0 <= k < |r| ensures r[k] == s[lead + k] {
      assert r[k] == t[k];
    }
    assert IsBlank(s[..lead]) by {
      forall k | 0 <= k < lead ensures IsSpace(s[..lead][k]) {
        assert s[..lead][k] == s[k];
      }
    }
    var tail := s[lead + |r|..];
    assert IsBlank(tail) by {
      forall k | 0 <= k < |tail| ensures IsSpace(tail[k]) {
        assert tail[k] == t[|r| + k];
      }
    }
  }


  /** Two trimmed infixes of one string are the same one, unless both are empty. */
  lemma TrimmedInfixUnique(s: string, i: int, j: int, l: int, m: int)
    requires TrimmedInfix(s, i, j) && TrimmedInfix(s, l, m)
    ensures i == j <==> l == m
    ensures i < j ==> i == l && j == m
  {
    assert forall k :: 0 <= k < i ==> IsSpace(s[k]) by {
      forall k | 0 <= k < i ensures IsSpace(s[k]) { assert s[..i][k] == s[k]; }
    }
    assert forall k :: j <= k < |s| ==> IsSpace(s[k]) by {
      forall k | j <= k < |s| ensures IsSpace(s[k]) { assert s[j..][k - j] == s[k]; }
    }
    assert forall k :: 0 <= k < l ==> IsSpace(s[k]) by {
      forall k | 0 <= k < l ensures IsSpace(s[k]) { assert s[..l][k] == s[k]; }
    }
    assert forall k :: m <= k < |s| ==> IsSpace(s[k]) by {
      forall k | m <= k < |s| ensures IsSpace(s[k]) { assert s[m..][k - m] == s[k]; }
    }
  }

  /** The trimmed text is the only infix with blank surroundings that
      neither starts nor ends with white space. */
  lemma TrimCharacterised(s: string, i: int, j: int)
    requires TrimmedInfix(s, i, j)
    ensures Trim(s) == s[i..j]
  {
    var r := Trim(s);
    TrimmedAtIsInfix(s, r, LeadingSpaces(s), i, j);
  }

  /** A trimmed infix found at any index is every other one. */
  lemma TrimmedAtIsInfix(s: string, r: string, lead: int, i: int, j: int)
    requires TrimmedAt(s, r, lead) && TrimmedInfix(s, i, j)
    ensures r == s[i..j]
  {
    TrimmedInfixUnique(s, i, j, lead, lead + |r|);
  }

  /** The number of UTF-16 code units that encode `c`: JavaScript's
      `length` counts a character outside the Basic Multilingual Plane twice. */
  function CodeUnits(c: char): nat {
    if c as int < 0x1_0000 then 1 else 2
  }

  /** JavaScript's `s.length`: UTF-16 code units, not characters. */
  function Utf16Length(s: string): (n: nat)
    ensures |s| <= n <= 2 * |s|
    ensures n == |s| <==> forall i :: 0 <= i < |s| ==> s[i] as int < 0x1_0000
    decreases |s|
  {
    if s == [] then 0 else CodeUnits(s[0]) + Utf16Length(s[1..])
  }

  /** Lower-casing neither creates nor removes white space. */
  lemma LowerKeepsBlank(s: string)
    ensures IsBlank(Lower(s)) <==> IsBlank(s)
  {
    assert forall c :: IsSpace(LowerChar(c)) <==> IsSpace(c);
  }

  // ----- substring search (`includes`, `/t/`) -----

  /** `t` occurs in `s` starting at index `i`. */
  ghost predicate OccursAt(s: string, t: string, i: int) {
    0 <= i && i + |t| <= |s| && s[i..i + |t|] == t
  }

  /** Scan for `t` at the indices from `i` onwards. */
  predicate OccursFrom(s: string, t: string, i: nat)
    decreases |s| - i
  {
    i + |t| <= |s| && (s[i..i + |t|] == t || OccursFrom(s, t, i + 1))
  }

  /** `s.includes(t)`. */
  predicate Contains(s: string, t: string) {
    OccursFrom(s, t, 0)
  }

  lemma {:induction false} OccursFromMeansOccursAt(s: string, t: string, i: nat)
    ensures OccursFrom(s, t, i) <==> exists k :: i <= k && OccursAt(s, t, k)
    decreases |s| - i
  {
    if i + |t| <= |s| {
      OccursFromMeansOccursAt(s, t, i + 1);
      if s[i..i + |t|] == t {
        assert OccursAt(s, t, i);
      } else if exists k :: i <= k && OccursAt(s, t, k) {
        var k :| i <= k && OccursAt(s, t, k);
        assert k != i;
        assert i + 1 <= k && OccursAt(s, t, k);
      }
    } else {
      forall k | i <= k ensures !OccursAt(s, t, k) {
      }
    }
  }

  /** The language of the unanchored pattern `/t/`: `t` occurs somewhere. */
  ghost predicate Occurs(s: string, t: string) {
    exists k :: OccursAt(s, t, k)
  }

  /** The scan agrees with the positional definition of an occurrence. */
  lemma ContainsMeansOccurs(s: string, t: string)
    ensures Contains(s, t) <==> Occurs(s, t)
  {
    OccursFromMeansOccursAt(s, t, 0);
  }

  /** Every character of an occurring pattern is a character of the text. */
  lemma ContainsNeedsChar(s: string, t: string, j: nat)
    requires j < |t|
    ensures Contains(s, t) ==> t[j] in s
  {
    ContainsMeansOccurs(s, t);
    if Contains(s, t) {
      var k :| OccursAt(s, t, k);
      assert s[k..k + |t|][j] == t[j];
      assert s[k + j] == t[j];
    }
  }

  // ----- the regular-expression shape `/a.*b/` -----

  /** No line terminator among `s[lo..hi]`. */
  ghost predicate OnOneLine(s: string, lo: int, hi: int) {
    forall k :: lo <= k < hi && 0 <= k < |s| ==> !IsLineTerminator(s[k])
  }

  /** Some `b` starts at or after `from`, with no line terminator in between. */
  ghost predicate LaterOnLine(s: string, b: string, from: int) {
    exists j :: from <= j && OccursAt(s, b, j) && OnOneLine(s, from, j)
  }

  /** The language of `/a.*b/` without anchors: some `a` is followed, later
      on the same line, by some `b`. */
  ghost predicate ThenOnLine(s: string, a: string, b: string) {
    exists i :: ThenAt(s, a, b, i)
  }

  /** An `a` at index `i`, followed later on its line by a `b`. */
  ghost predicate ThenAt(s: string, a: string, b: string, i: int) {
    OccursAt(s, a, i) && LaterOnLine(s, b, i + |a|)
  }

  /** `b` starts at some index `j >= i` and nothing in `s[i..j]` ends the line. */
  predicate OnLineFrom(s: string, b: string, i: nat)
    decreases |s| - i
  {
    i + |b| <= |s| &&
    (s[i..i + |b|] == b || (!IsLineTerminator(s[i]) && OnLineFrom(s, b, i + 1)))
  }

  /** Scan for an `a` at index `i` or later that is followed on its line by `b`. */
  predicate ThenOnLineFrom(s: string, a: string, b: string, i: nat)
    decreases |s| - i
  {
    i + |a| <= |s| &&
    ((s[i..i + |a|] == a && OnLineFrom(s, b, i + |a|)) || ThenOnLineFrom(s, a, b, i + 1))
  }

  /** `/a.*b/.test(s)`. */
  predicate Then(s: string, a: string, b: string) {
    ThenOnLineFrom(s, a, b, 0)
  }

  lemma {:induction false} OnLineFromMeans(s: string, b: string, i: nat)
    ensures OnLineFrom(s, b, i) <==> LaterOnLine(s, b, i)
    decreases |s| - i
  {
    if i + |b| <= |s| {
      OnLineFromMeans(s, b, i + 1);
      if s[i..i + |b|] == b {
        assert OccursAt(s, b, i) && OnOneLine(s, i, i);
      } else {
        if OnLineFrom(s, b, i) {
          var j :| i + 1 <= j && OccursAt(s, b, j) && OnOneLine(s, i + 1, j);
          assert OnOneLine(s, i, j);
        }
        if LaterOnLine(s, b, i) {
          var j :| i <= j && OccursAt(s, b, j) && OnOneLine(s, i, j);
          assert j != i;
          assert !IsLineTerminator(s[i]);
          assert OnOneLine(s, i + 1, j);
        }
      }
    } else {
      forall j | i <= j ensures !OccursAt(s, b, j) {
      }
    }
  }

  lemma {:induction false} ThenOnLineFromMeans(s: string, a: string, b: string, i: nat)
    ensures ThenOnLineFrom(s, a, b, i) <==> exists k :: i <= k && ThenAt(s, a, b, k)
    decreases |s| - i
  {
    if i + |a| <= |s| {
      ThenOnLineFromMeans(s, a, b, i + 1);
      OnLineFromMeans(s, b, i + |a|);
      assert ThenAt(s, a, b, i) <==> s[i..i + |a|] == a && OnLineFrom(s, b, i + |a|);
      if exists k :: i <= k && ThenAt(s, a, b, k) {
        var k :| i <= k && ThenAt(s, a, b, k);
        assert k == i || i + 1 <= k;
      }
    } else {
      forall k | i <= k ensures !ThenAt(s, a, b, k) {
      }
    }
  }

  /** The scan decides exactly the language of `/a.*b/`. */
  lemma ThenMeansThenOnLine(s: string, a: string, b: string)
    ensures Then(s, a, b) <==> ThenOnLine(s, a, b)
  {
    ThenOnLineFromMeans(s, a, b, 0);
  }

  /** Every character of the leading pattern of `/a.*b/` occurs in a text
      the expression matches. */
  lemma ThenNeedsChar(s: string, a: string, b: string, j: nat)
    requires j < |a|
    ensures Then(s, a, b) ==> a[j] in s
  {
    ThenMeansThenOnLine(s, a, b);
    if Then(s, a, b) {
      var i :| ThenAt(s, a, b, i);
      assert s[i..i + |a|][j] == a[j];
      assert s[i + j] == a[j];
    }
  }

  // ----- split and join -----

  /** `s.split(sep)` for a one-character separator: empty pieces are kept,
      and the empty string splits into one empty piece. */
  function Split(s: string, sep: char): (parts: seq<string>)
    ensures |parts| >= 1
    ensures forall k :: 0 <= k < |parts| ==> sep !in parts[k]
    decreases |s|
  {
    if s == [] then [""]
    else
      var rest := Split(s[1..], sep);
      if s[0] == sep then [""] + rest
      else [[s[0]] + rest[0]] + rest[1..]
  }

  /** `parts.join(sep)`. */
  function Join(parts: seq<string>, sep: char): string
    requires |parts| >= 1
    decreases |parts|
  {
    if |parts| == 1 then parts[0] else parts[0] + [sep] + Join(parts[1..], sep)
  }

  /** Splitting loses nothing: joining the pieces restores the string. */
  lemma {:induction false} JoinSplit(s: string, sep: char)
    ensures Join(Split(s, sep), sep) == s
    decreases |s|
  {
    if s != [] {
      var rest := Split(s[1..], sep);
      JoinSplit(s[1..], sep);
      if s[0] == sep {
        assert ([""] + rest)[1..] == rest;
      } else {
        var parts := [[s[0]] + rest[0]] + rest[1..];
        if |rest| == 1 {
          assert parts == [[s[0]] + rest[0]];
        } else {
          assert parts[1..] == rest[1..];
          assert Join(rest, sep) == rest[0] + [sep] + Join(rest[1..], sep);
        }
      }
    }
  }

  // ----- decimal numerals -----

  function DigitChar(d: nat): char
    requires d < 10
  {
    (('0' as int) + d) as char
  }

  predicate IsDigit(c: char) {
    '0' <= c <= '9'
  }

  /** The decimal numeral of `n`, as template-literal interpolation prints it. */
  function NatToString(n: nat): (r: string)
    ensures |r| >= 1
    ensures forall i :: 0 <= i < |r| ==> IsDigit(r[i])
    decreases n
  {
    if n < 10 then [DigitChar(n)] else NatToString(n / 10) + [DigitChar(n % 10)]
  }

  function DigitValue(c: char): nat
    requires IsDigit(c)
  {
    c as int - '0' as int
  }

  /** The value of a decimal numeral. */
  function ParseDecimal(s: string): nat
    requires forall i :: 0 <= i < |s| ==> IsDigit(s[i])
    decreases |s|
  {
    if s == [] then 0
    else ParseDecimal(s[..|s| - 1]) * 10 + DigitValue(s[|s| - 1])
  }

  /** Reading back the numeral gives the number: distinct counts print
      differently. */
  lemma {:induction false} ParseNatToString(n: nat)
    ensures ParseDecimal(NatToString(n)) == n
    decreases n
  {
    if n >= 10 {
      var r := NatToString(n);
      ParseNatToString(n / 10);
      assert r[..|r| - 1] == NatToString(n / 10);
    }
  }
}
