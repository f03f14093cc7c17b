/** The two regular expressions of the client-side validators, and what they accept.

    Both are anchored (`^…$`, no flags), so `test` succeeds exactly when the whole
    value matches. They are written here as sequences of terms, each term a
    character class with a `{n}` or `+` quantifier, which is all the two patterns use:

      phone  /^\d{3}-\d{3}-\d{4}$/
      email  /^[^\s@]+@[^\s@]+\.[^\s@]+$/                                        */
module Regex {
  import opened Text

  /** The character classes the two patterns use. */
  datatype CharClass =
    | Digit              // \d : ASCII '0'..'9' only
    | NotSpaceOrAt       // [^\s@]
    | Literal(c: char)   // an ordinary or escaped character: '-', '@', '\.'

  /** `{n}` and `+`. */
  datatype Quantifier = Times(n: nat) | OneOrMore

  datatype Term = Term(cls: CharClass, q: Quantifier)

  type Pattern = seq<Term>

  predicate IsAsciiDigit(c: char)
  {
    '0' <= c <= '9'
  }

  predicate InClass(cls: CharClass, c: char)
  {
    match cls
    case Digit => IsAsciiDigit(c)
    case NotSpaceOrAt => !IsSpace(c) && c != '@'
    case Literal(l) => c == l
  }

  predicate AllIn(cls: CharClass, s: string)
  {
    forall i :: 0 <= i < |s| ==> InClass(cls, s[i])
  }

  /** How many characters a quantifier lets its term consume. */
  predicate Allows(q: Quantifier, k: nat)
  {
    match q
    case Times(n) => k == n
    case OneOrMore => k >= 1
  }

  /** `RegExp.prototype.test` on one of these anchored patterns: `p` matches all
      of `s`. The first term takes some number of characters its
      quantifier allows, all in its class, and the other terms match the rest.
      The existential is the set of choices a backtracking matcher explores. */
  predicate Matches(p: Pattern, s: string)
    decreases |p|
  {
    if p == [] then s == []
    else exists k: nat {:trigger Matches(p[1..], s[k..])} :: k <= |s| && Allows(p[0].q, k) && AllIn(p[0].cls, s[..k]) && Matches(p[1..], s[k..])
  }

  const PhonePattern: Pattern :=
    [Term(Digit, Times(3)), Term(Literal('-'), Times(1)), Term(Digit, Times(3)),
     Term(Literal('-'), Times(1)), Term(Digit, Times(4))]

  const EmailPattern: Pattern :=
    [Term(NotSpaceOrAt, OneOrMore), Term(Literal('@'), Times(1)), Term(NotSpaceOrAt, OneOrMore),
     Term(Literal('.'), Times(1)), Term(NotSpaceOrAt, OneOrMore)]

  // ---------------------------------------------------------------------------
  // Plain characterisations of the two patterns

  /** `ddd-ddd-dddd`: twelve characters, '-' at positions 3 and 7, ASCII digits elsewhere. */
  predicate IsPhoneShape(s: string)
  {
    |s| == 12 && s[3] == '-' && s[7] == '-' &&
    forall i :: 0 <= i < 12 && i != 3 && i != 7 ==> IsAsciiDigit(s[i])
  }

  /** Number of occurrences of `c` in `s`. */
  function CountOf(s: string, c: char): (n: nat)
    ensures n <= |s|
    ensures n == 0 <==> c !in s
    decreases |s|
  {
    if s == [] then 0
    else (if s[0] == c then 1 else 0) + CountOf(s[1..], c)
  }

  /** Index of the first `c` in `s`, or |s| when there is none. */
  function IndexOf(s: string, c: char): (i: nat)
    ensures i <= |s|
    ensures i < |s| ==> s[i] == c
    ensures forall j :: 0 <= j < i ==> s[j] != c
    decreases |s|
  {
    if s == [] then 0
    else if s[0] == c then 0
    else 1 + IndexOf(s[1..], c)
  }

  /** Some '.' of `d` is neither its first nor its last character. */
  predicate HasInnerDot(d: string)
  {
    exists j :: 0 < j < |d| - 1 && d[j] == '.'
  }

  /** No whitespace, exactly one '@', something before it, and after it a '.'
      that is neither the first nor the last character of the domain. */
  predicate IsEmailShape(s: string)
  {
    NoSpace(s) && CountOf(s, '@') == 1 &&
    var at := IndexOf(s, '@');
    0 < at < |s| && HasInnerDot(s[at + 1..])
  }

  // ---------------------------------------------------------------------------
  // Unfolding one term

  lemma MatchesTimes(cls: CharClass, n: nat, rest: Pattern, s: string)
    ensures Matches([Term(cls, Times(n))] + rest, s) <==> n <= |s| && AllIn(cls, s[..n]) && Matches(rest, s[n..])
  {
    var p := [Term(cls, Times(n))] + rest;
    assert p[1..] == rest;
    if n <= |s| && AllIn(cls, s[..n]) && Matches(rest, s[n..]) {
      assert Allows(p[0].q, n);
    }
  }

  lemma MatchesOneOrMore(cls: CharClass, rest: Pattern, s: string)
    ensures Matches([Term(cls, OneOrMore)] + rest, s) <==>
            exists k :: 1 <= k <= |s| && AllIn(cls, s[..k]) && Matches(rest, s[k..])
  {
    var p := [Term(cls, OneOrMore)] + rest;
    assert p[1..] == rest;
    if exists k :: 1 <= k <= |s| && AllIn(cls, s[..k]) && Matches(rest, s[k..]) {
      var k :| 1 <= k <= |s| && AllIn(cls, s[..k]) && Matches(rest, s[k..]);
      assert Allows(p[0].q, k);
    }
  }

  /** A single literal character followed by the rest. */
  lemma MatchesLiteral(c: char, rest: Pattern, s: string)
    ensures Matches([Term(Literal(c), Times(1))] + rest, s) <==> |s| >= 1 && s[0] == c && Matches(rest, s[1..])
  {
    MatchesTimes(Literal(c), 1, rest, s);
    if |s| >= 1 && s[0] == c {
      assert AllIn(Literal(c), s[..1]);
    }
  }

  /** The last `[^\s@]+` of the email pattern: a non-empty run of such characters. */
  lemma MatchesTail(s: string)
    ensures Matches([Term(NotSpaceOrAt, OneOrMore)], s) <==> |s| >= 1 && AllIn(NotSpaceOrAt, s)
  {
    var tail := [Term(NotSpaceOrAt, OneOrMore)];
    assert tail == [Term(NotSpaceOrAt, OneOrMore)] + [];
    MatchesOneOrMore(NotSpaceOrAt, [], s);
    if |s| >= 1 && AllIn(NotSpaceOrAt, s) {
      assert s[..|s|] == s && s[|s|..] == [];
    }
  }

  // ---------------------------------------------------------------------------
  // The phone pattern

  /** `\d{3}-\d{4}`, the last two terms of the phone pattern. */
  lemma PhoneLast(t: string)
    ensures Matches(PhonePattern[3..], t) <==> |t| == 5 && t[0] == '-' && AllIn(Digit, t[1..])
  {
    var p4 := [Term(Digit, Times(4))];
    assert PhonePattern[3..] == [Term(Literal('-'), Times(1))] + p4;
    assert p4 == [Term(Digit, Times(4))] + [];
    MatchesLiteral('-', p4, t);
    if |t| >= 1 {
      MatchesTimes(Digit, 4, [], t[1..]);
      if |t| >= 5 {
        assert t[1..][4..] == [] <==> |t| == 5;
        assert |t| == 5 ==> t[1..][..4] == t[1..];
      }
    }
  }

  /** `-\d{3}-\d{4}`, the phone pattern after its first group. */
  lemma PhoneRest(t: string)
    ensures Matches(PhonePattern[1..], t) <==>
            |t| == 9 && t[0] == '-' && AllIn(Digit, t[1..4]) && t[4] == '-' && AllIn(Digit, t[5..])
  {
    var p2 := [Term(Digit, Times(3))] + PhonePattern[3..];
    assert PhonePattern[1..] == [Term(Literal('-'), Times(1))] + p2;
    MatchesLiteral('-', p2, t);
    if |t| >= 1 {
      MatchesTimes(Digit, 3, PhonePattern[3..], t[1..]);
      if |t| >= 4 {
        PhoneLast(t[1..][3..]);
        assert t[1..][..3] == t[1..4];
        assert t[1..][3..] == t[4..];
        if |t| >= 5 {
          assert t[4..][1..] == t[5..];
        }
      }
    }
  }

  /** The phone pattern as three digit groups separated by '-'. */
  lemma PhoneGroups(s: string)
    ensures Matches(PhonePattern, s) <==>
            |s| == 12 && AllIn(Digit, s[..3]) && s[3] == '-' && AllIn(Digit, s[4..7]) &&
            s[7] == '-' && AllIn(Digit, s[8..])
  {
    assert PhonePattern == [Term(Digit, Times(3))] + PhonePattern[1..];
    MatchesTimes(Digit, 3, PhonePattern[1..], s);
    if |s| >= 3 {
      var t := s[3..];
      PhoneRest(t);
      if |t| == 9 {
        assert t[1..4] == s[4..7];
        assert t[5..] == s[8..];
      }
    }
  }

  /** The phone regular expression accepts exactly the `ddd-ddd-dddd` strings. */
  lemma PhonePatternIff(s: string)
    ensures Matches(PhonePattern, s) <==> IsPhoneShape(s)
  {
    PhoneGroups(s);
    if |s| == 12 {
      if IsPhoneShape(s) {
        assert AllIn(Digit, s[4..7]) by {
          forall i | 0 <= i < 3 ensures InClass(Digit, s[4..7][i]) {
            assert s[4..7][i] == s[4 + i];
          }
        }
        assert AllIn(Digit, s[8..]) by {
          forall i | 0 <= i < 4 ensures InClass(Digit, s[8..][i]) {
            assert s[8..][i] == s[8 + i];
          }
        }
      }
      if AllIn(Digit, s[..3]) && AllIn(Digit, s[4..7]) && AllIn(Digit, s[8..]) {
        forall i | 0 <= i < 12 && i != 3 && i != 7 ensures IsAsciiDigit(s[i]) {
          if i < 3 {
            assert s[i] == s[..3][i];
            assert InClass(Digit, s[..3][i]);
          } else if i < 7 {
            assert s[i] == s[4..7][i - 4];
            assert InClass(Digit, s[4..7][i - 4]);
          } else {
            assert s[i] == s[8..][i - 8];
            assert InClass(Digit, s[8..][i - 8]);
          }
        }
      }
    }
  }

  // ---------------------------------------------------------------------------
  // The email pattern

  lemma {:induction false} CountOfAppend(a: string, b: string, c: char)
    ensures CountOf(a + b, c) == CountOf(a, c) + CountOf(b, c)
    decreases |a|
  {
    if a == [] {
      assert a + b == b;
    } else {
      assert (a + b)[0] == a[0] && (a + b)[1..] == a[1..] + b;
      CountOfAppend(a[1..], b, c);
    }
  }

  /** A run of `[^\s@]` characters holds neither whitespace nor '@'. */
  lemma RunFacts(s: string)
    requires AllIn(NotSpaceOrAt, s)
    ensures NoSpace(s) && '@' !in s
  {
  }

  /** The part after '@': `[^\s@]+\.[^\s@]+`. */
  lemma {:induction false} DomainMatchShape(d: string)
    requires Matches(EmailPattern[2..], d)
    ensures AllIn(NotSpaceOrAt, d) && HasInnerDot(d)
  {
    var tail := [Term(NotSpaceOrAt, OneOrMore)];
    var dotTail := [Term(Literal('.'), Times(1))] + tail;
    assert EmailPattern[2..] == [Term(NotSpaceOrAt, OneOrMore)] + dotTail;
    MatchesOneOrMore(NotSpaceOrAt, dotTail, d);
    var k :| 1 <= k <= |d| && AllIn(NotSpaceOrAt, d[..k]) && Matches(dotTail, d[k..]);
    var after := d[k..];
    MatchesLiteral('.', tail, after);
    MatchesTail(after[1..]);
    assert d[k] == '.';
    forall i | 0 <= i < |d| ensures InClass(NotSpaceOrAt, d[i]) {
      if i < k {
        assert d[i] == d[..k][i];
      } else if i > k {
        assert d[i] == after[1..][i - k - 1];
      }
    }
    assert 0 < k < |d| - 1;
  }

  lemma {:induction false} DomainShapeMatch(d: string)
    requires AllIn(NotSpaceOrAt, d) && HasInnerDot(d)
    ensures Matches(EmailPattern[2..], d)
  {
    var tail := [Term(NotSpaceOrAt, OneOrMore)];
    var dotTail := [Term(Literal('.'), Times(1))] + tail;
    assert EmailPattern[2..] == [Term(NotSpaceOrAt, OneOrMore)] + dotTail;
    var j :| 0 < j < |d| - 1 && d[j] == '.';
    var after := d[j..];
    assert AllIn(NotSpaceOrAt, after[1..]) by {
      forall i | 0 <= i < |after[1..]| ensures InClass(NotSpaceOrAt, after[1..][i]) {
        assert after[1..][i] == d[j + 1 + i];
      }
    }
    MatchesTail(after[1..]);
    MatchesLiteral('.', tail, after);
    assert AllIn(NotSpaceOrAt, d[..j]) by {
      forall i | 0 <= i < j ensures InClass(NotSpaceOrAt, d[..j][i]) {
        assert d[..j][i] == d[i];
      }
    }
    MatchesOneOrMore(NotSpaceOrAt, dotTail, d);
  }

  /** `[^\s@]+` then '@' then the domain: the first two terms of the email pattern. */
  lemma EmailSplit(s: string)
    ensures Matches(EmailPattern, s) <==>
            exists k :: 1 <= k < |s| && AllIn(NotSpaceOrAt, s[..k]) && s[k] == '@' && Matches(EmailPattern[2..], s[k + 1..])
  {
    var rest := EmailPattern[1..];
    assert EmailPattern == [Term(NotSpaceOrAt, OneOrMore)] + rest;
    assert rest == [Term(Literal('@'), Times(1))] + EmailPattern[2..];
    MatchesOneOrMore(NotSpaceOrAt, rest, s);
    forall k | 1 <= k <= |s|
      ensures Matches(rest, s[k..]) <==> k < |s| && s[k] == '@' && Matches(EmailPattern[2..], s[k + 1..])
    {
      MatchesLiteral('@', EmailPattern[2..], s[k..]);
      if k < |s| {
        assert s[k..][1..] == s[k + 1..];
      }
    }
  }

  /** Two `[^\s@]` runs joined by '@': one '@', found at the join, and no whitespace. */
  lemma JoinAtFacts(local: string, d: string)
    requires AllIn(NotSpaceOrAt, local) && AllIn(NotSpaceOrAt, d)
    ensures CountOf(local + ['@'] + d, '@') == 1
    ensures IndexOf(local + ['@'] + d, '@') == |local|
    ensures NoSpace(local + ['@'] + d)
  {
    RunFacts(local);
    RunFacts(d);
    JoinCount(local, d);
    JoinNoSpace(local, d);
  }

  lemma JoinCount(local: string, d: string)
    requires '@' !in local && '@' !in d
    ensures CountOf(local + ['@'] + d, '@') == 1
  {
    CountOfAppend(local + ['@'], d, '@');
    CountOfAppend(local, ['@'], '@');
  }

  lemma JoinNoSpace(local: string, d: string)
    requires NoSpace(local) && NoSpace(d)
    ensures NoSpace(local + ['@'] + d)
  {
  }

  lemma EmailMatchShape(s: string)
    requires Matches(EmailPattern, s)
    ensures IsEmailShape(s)
  {
    EmailSplit(s);
    var k :| 1 <= k < |s| && AllIn(NotSpaceOrAt, s[..k]) && s[k] == '@' && Matches(EmailPattern[2..], s[k + 1..]);
    DomainMatchShape(s[k + 1..]);
    EmailShapeOfParts(s, k);
  }

  /** A non-empty `[^\s@]` run, '@' at index k, and a well-formed domain after it. */
  lemma EmailShapeOfParts(s: string, k: nat)
    requires 1 <= k < |s| && AllIn(NotSpaceOrAt, s[..k]) && s[k] == '@'
    requires AllIn(NotSpaceOrAt, s[k + 1..]) && HasInnerDot(s[k + 1..])
    ensures IsEmailShape(s)
  {
    var local, d := s[..k], s[k + 1..];
    JoinAtFacts(local, d);
    assert s == local + ['@'] + d;
  }

  /** In an email-shaped string, '@' occurs neither before nor after its first occurrence. */
  lemma AtIsUnique(s: string)
    requires IsEmailShape(s)
    ensures '@' !in s[..IndexOf(s, '@')] && '@' !in s[IndexOf(s, '@') + 1..]
  {
    var at := IndexOf(s, '@');
    var local, d := s[..at], s[at + 1..];
    assert s == local + ['@'] + d;
    CountOfAppend(local + ['@'], d, '@');
    CountOfAppend(local, ['@'], '@');
  }

  /** A piece of a string without whitespace or '@' lies in `[^\s@]`. */
  lemma SliceInNotSpaceOrAt(s: string, i: nat, j: nat)
    requires i <= j <= |s| && NoSpace(s) && '@' !in s[i..j]
    ensures AllIn(NotSpaceOrAt, s[i..j])
  {
    forall m | 0 <= m < j - i ensures InClass(NotSpaceOrAt, s[i..j][m]) {
      assert s[i..j][m] == s[i + m];
    }
  }

  lemma EmailShapeMatch(s: string)
    requires IsEmailShape(s)
    ensures Matches(EmailPattern, s)
  {
    var at := IndexOf(s, '@');
    AtIsUnique(s);
    SliceInNotSpaceOrAt(s, 0, at);
    SliceInNotSpaceOrAt(s, at + 1, |s|);
    assert s[at + 1..|s|] == s[at + 1..];
    DomainShapeMatch(s[at + 1..]);
    EmailSplit(s);
  }

  /** The email regular expression accepts exactly the strings with no whitespace,
      exactly one '@', a non-empty part before it, and after it a '.' that is
      neither the domain's first nor its last character. */
  lemma EmailPatternIff(s: string)
    ensures Matches(EmailPattern, s) <==> IsEmailShape(s)
  {
    if Matches(EmailPattern, s) {
      EmailMatchShape(s);
    }
    if IsEmailShape(s) {
      EmailShapeMatch(s);
    }
  }
}
