/**
 * The email predicate of UserProcessor: the anchored regular expression
 *
 *     ^[\w.-]+@[\w.-]+\.[a-zA-Z]{2,}$
 *
 * tested against the whole string. The expression carries no `u` flag, so
 * `\w` is `[A-Za-z0-9_]`, and no `g` flag, so a test keeps no state between
 * calls.
 *
 * Three descriptions of the same language are given and proved equal:
 *  - MatchesPattern: the regular expression read literally, as a choice of
 *    the two split points (the '@' and the dot before the top-level label);
 *  - WellFormedAddress: a declarative characterisation (one '@', the
 *    character classes of both sides, the domain's last dot and its suffix);
 *  - IsValidEmail: an executable recogniser, a finite automaton run over the
 *    string left to right.
 */
module EmailValidation {

  /** `\w` without the `u` flag. */
  predicate IsWordChar(c: char) {
    'a' <= c <= 'z' || 'A' <= c <= 'Z' || '0' <= c <= '9' || c == '_'
  }

  /** The class `[\w.-]` of the local part and of the domain. */
  predicate IsAddressChar(c: char) {
    IsWordChar(c) || c == '.' || c == '-'
  }

  /** The class `[a-zA-Z]` of the top-level label. */
  predicate IsAsciiLetter(c: char) {
    'a' <= c <= 'z' || 'A' <= c <= 'Z'
  }

  /** Every character that may appear anywhere in an accepted string. */
  predicate IsAllowedChar(c: char) {
    IsAddressChar(c) || c == '@'
  }

  predicate AllAddressChars(s: string) {
    forall i :: 0 <= i < |s| ==> IsAddressChar(s[i])
  }

  predicate AllLetters(s: string) {
    forall i :: 0 <= i < |s| ==> IsAsciiLetter(s[i])
  }

  predicate AllAllowed(s: string) {
    forall i :: 0 <= i < |s| ==> IsAllowedChar(s[i])
  }

  /** Number of occurrences of `c` in `s`. */
  function Count(s: string, c: char): (n: nat)
    ensures n <= |s|
    ensures n == 0 <==> c !in s
  {
    if s == [] then 0
    else
      assert s == s[..|s| - 1] + [s[|s| - 1]];
      Count(s[..|s| - 1], c) + (if s[|s| - 1] == c then 1 else 0)
  }

  /** Index of the first `c` in `s`, or `|s|` when there is none. */
  function IndexOf(s: string, c: char): (r: nat)
    ensures r <= |s|
    ensures r < |s| <==> c in s
    ensures r < |s| ==> s[r] == c
    ensures forall i :: 0 <= i < r ==> s[i] != c
  {
    if s == [] then 0
    else if s[0] == c then 0
    else 1 + IndexOf(s[1..], c)
  }

  /** Index of the last `c` in `s`, or -1 when there is none. */
  function LastIndexOf(s: string, c: char): (r: int)
    ensures -1 <= r < |s|
    ensures r == -1 <==> c !in s
    ensures r >= 0 ==> s[r] == c
    ensures forall i :: r < i < |s| ==> s[i] != c
  {
    if s == [] then -1
    else if s[|s| - 1] == c then |s| - 1
    else LastIndexOf(s[..|s| - 1], c)
  }

  // ---------------------------------------------------------------------
  // The regular expression, read literally
  // ---------------------------------------------------------------------

  /**
   * `s` is `[\w.-]+` `@` `[\w.-]+` `\.` `[a-zA-Z]{2,}` with the '@' at index
   * `at` and the escaped dot at index `dot`; the anchors `^` and `$` make the
   * five pieces cover `s` exactly.
   */
  ghost predicate PatternSplit(s: string, at: int, dot: int) {
    1 <= at && at + 2 <= dot && dot + 3 <= |s| &&
    s[at] == '@' && s[dot] == '.' &&
    AllAddressChars(s[..at]) &&
    AllAddressChars(s[at + 1..dot]) &&
    AllLetters(s[dot + 1..])
  }

  /** The language of the regular expression: some choice of split points works. */
  ghost predicate MatchesPattern(s: string) {
    exists at, dot :: PatternSplit(s, at, dot)
  }

  // ---------------------------------------------------------------------
  // The declarative characterisation
  // ---------------------------------------------------------------------

  /**
   * Exactly one '@'; a non-empty local part over `[\w.-]`; a domain over
   * `[\w.-]` whose last '.' is not its first character; after that dot at
   * least two ASCII letters and nothing else.
   */
  ghost predicate WellFormedAddress(s: string) {
    Count(s, '@') == 1 &&
    var at := IndexOf(s, '@');
    var local, domain := s[..at], s[at + 1..];
    |local| >= 1 && AllAddressChars(local) && AllAddressChars(domain) &&
    var k := LastIndexOf(domain, '.');
    k >= 1 &&
    var tld := domain[k + 1..];
    |tld| >= 2 && AllLetters(tld)
  }

  // ---------------------------------------------------------------------
  // The recogniser: a finite automaton
  // ---------------------------------------------------------------------

  datatype State =
    | Start     // nothing read
    | InLocal   // a non-empty local part, no '@' yet
    | AfterAt   // the '@' was the last character read
    | InDomain  // a non-empty domain with no '.' past its first character
    | AfterDot  // the last character read is a '.' past the domain's first character
    | Tld1      // one letter since the domain's last dot
    | Tld2      // two or more letters, and nothing else, since the domain's last dot
    | TldMixed  // a non-letter since the domain's last dot
    | Fail      // no extension of the input can match

  /** The automaton's transition on one character. */
  function Step(q: State, c: char): State {
    if !IsAllowedChar(c) then Fail
    else match q
      case Start => if c == '@' then Fail else InLocal
      case InLocal => if c == '@' then AfterAt else InLocal
      case AfterAt => if c == '@' then Fail else InDomain
      case InDomain =>
        if c == '@' then Fail else if c == '.' then AfterDot else InDomain
      case AfterDot =>
        if c == '@' then Fail else if c == '.' then AfterDot
        else if IsAsciiLetter(c) then Tld1 else TldMixed
      case Tld1 =>
        if c == '@' then Fail else if c == '.' then AfterDot
        else if IsAsciiLetter(c) then Tld2 else TldMixed
      case Tld2 =>
        if c == '@' then Fail else if c == '.' then AfterDot
        else if IsAsciiLetter(c) then Tld2 else TldMixed
      case TldMixed =>
        if c == '@' then Fail else if c == '.' then AfterDot else TldMixed
      case Fail => Fail
  }

  /** What the automaton's state means after the top-level label began. */
  ghost function TldState(t: string): State {
    if t == [] then AfterDot
    else if !AllLetters(t) then TldMixed
    else if |t| == 1 then Tld1
    else Tld2
  }

  /** What the automaton's state means once the '@' was read, given the domain so far. */
  ghost function DomainState(d: string): State {
    if d == [] then AfterAt
    else
      var k := LastIndexOf(d, '.');
      if k < 1 then InDomain else TldState(d[k + 1..])
  }

  /** What the automaton's state means after reading the prefix `p`. */
  ghost function Describe(p: string): State {
    if !AllAllowed(p) then Fail
    else if Count(p, '@') == 0 then (if p == [] then Start else InLocal)
    else if Count(p, '@') >= 2 || IndexOf(p, '@') == 0 then Fail
    else DomainState(p[IndexOf(p, '@') + 1..])
  }

  /** The state of the automaton after reading `s`. */
  function Scan(s: string): State {
    if s == [] then Start else Step(Scan(s[..|s| - 1]), s[|s| - 1])
  }

  /** The automaton invariant: after reading `s` the state is the one Describe(s) assigns. */
  lemma {:induction false} ScanDescribes(s: string)
    ensures Scan(s) == Describe(s)
  {
    if s != [] {
      var p, c := s[..|s| - 1], s[|s| - 1];
      assert s == p + [c];
      ScanDescribes(p);
      DescribeStep(p, c);
    }
  }

  /** UserProcessor.isValidEmail: the automaton ends in its accepting state. */
  function IsValidEmail(s: string): (valid: bool)
    ensures valid ==> Count(s, '@') == 1 && IndexOf(s, '@') >= 1
  {
    ScanDescribes(s);
    Scan(s) == Tld2
  }

  /**
   * The recogniser accepts exactly the strings in the language of the regular
   * expression, which are exactly the well-formed addresses.
   */
  lemma IsValidEmailCorrect(s: string)
    ensures IsValidEmail(s) <==> MatchesPattern(s)
    ensures IsValidEmail(s) <==> WellFormedAddress(s)
  {
    ScanDescribes(s);
    AcceptedIffWellFormed(s);
    WellFormedIffMatchesPattern(s);
  }

  // ---------------------------------------------------------------------
  // Facts about the string helpers
  // ---------------------------------------------------------------------

  lemma {:induction false} CountAppend(a: string, b: string, c: char)
    ensures Count(a + b, c) == Count(a, c) + Count(b, c)
    decreases |b|
  {
    if b == [] {
      assert a + b == a;
    } else {
      var b' := b[..|b| - 1];
      assert (a + b)[..|a + b| - 1] == a + b';
      CountAppend(a, b', c);
    }
  }

  lemma IndexOfUnique(s: string, c: char, k: nat)
    requires k < |s| && s[k] == c
    requires forall i :: 0 <= i < k ==> s[i] != c
    ensures IndexOf(s, c) == k
  {
  }

  lemma LastIndexOfUnique(s: string, c: char, k: nat)
    requires k < |s| && s[k] == c
    requires forall i :: k < i < |s| ==> s[i] != c
    ensures LastIndexOf(s, c) == k
  {
  }

  lemma LastIndexOfAppend(d: string, c: char, x: char)
    ensures LastIndexOf(d + [c], x) == if c == x then |d| else LastIndexOf(d, x)
  {
    assert (d + [c])[..|d|] == d;
  }

  // ---------------------------------------------------------------------
  // The automaton's invariant: one step of Scan is one step of Describe
  // ---------------------------------------------------------------------

  lemma TldStep(t: string, c: char)
    requires IsAddressChar(c) && c != '.'
    ensures TldState(t + [c]) == Step(TldState(t), c)
  {
    var t' := t + [c];
    assert t' != [] && t'[|t|] == c;
    if !AllLetters(t) {
      var i :| 0 <= i < |t| && !IsAsciiLetter(t[i]);
      assert t'[i] == t[i];
    } else if !IsAsciiLetter(c) {
      assert !AllLetters(t');
    } else {
      assert AllLetters(t');
    }
  }

  lemma DomainStep(d: string, c: char)
    requires IsAddressChar(c)
    ensures DomainState(d + [c]) == Step(DomainState(d), c)
  {
    var d' := d + [c];
    LastIndexOfAppend(d, c, '.');
    assert IsAllowedChar(c) && c != '@';
    if d == [] {
      assert DomainState(d') == InDomain;
    } else if c == '.' {
      assert d'[|d| + 1..] == [];
      assert DomainState(d') == AfterDot;
    } else {
      var k := LastIndexOf(d, '.');
      assert LastIndexOf(d', '.') == k;
      if k >= 1 {
        var t := d[k + 1..];
        assert d'[k + 1..] == t + [c];
        assert DomainState(d) == TldState(t);
        assert DomainState(d') == TldState(t + [c]);
        TldStep(t, c);
      } else {
        assert DomainState(d') == InDomain == DomainState(d);
      }
    }
  }

  lemma DescribeStep(p: string, c: char)
    ensures Describe(p + [c]) == Step(Describe(p), c)
  {
    var q := p + [c];
    assert q[|p|] == c;
    assert q[..|p|] == p;
    CountAppend(p, [c], '@');
    CountSingle(c, '@');
    if !IsAllowedChar(c) {
      assert !AllAllowed(q);
    } else if !AllAllowed(p) {
      var i :| 0 <= i < |p| && !IsAllowedChar(p[i]);
      assert q[i] == p[i];
    } else {
      assert AllAllowed(q);
      if Count(p, '@') == 0 {
        if c == '@' {
          IndexOfUnique(q, '@', |p|);
          assert q[|p| + 1..] == [];
        }
      } else if Count(p, '@') == 1 {
        var at := IndexOf(p, '@');
        IndexOfUnique(q, '@', at);
        if at != 0 && c != '@' {
          assert q[at + 1..] == p[at + 1..] + [c];
          DomainStep(p[at + 1..], c);
        }
      }
    }
  }

  // ---------------------------------------------------------------------
  // The three descriptions agree
  // ---------------------------------------------------------------------

  lemma CountSingle(x: char, c: char)
    ensures Count([x], c) == if x == c then 1 else 0
  {
    assert [x][..0] == [];
  }

  /** Counting around one position of the string. */
  lemma CountAround(s: string, k: nat, c: char)
    requires k < |s|
    ensures Count(s, c) == Count(s[..k], c) + (if s[k] == c then 1 else 0) + Count(s[k + 1..], c)
  {
    assert s == s[..k] + [s[k]] + s[k + 1..];
    CountAppend(s[..k] + [s[k]], s[k + 1..], c);
    CountAppend(s[..k], [s[k]], c);
    CountSingle(s[k], c);
  }

  /** With a single '@', the string splits around it into two '@'-free parts. */
  lemma SplitAtOnlyAt(s: string)
    requires Count(s, '@') == 1
    ensures IndexOf(s, '@') < |s|
    ensures '@' !in s[IndexOf(s, '@') + 1..]
  {
    var at := IndexOf(s, '@');
    CountAround(s, at, '@');
    assert '@' !in s[..at] by {
      forall i | 0 <= i < at ensures s[..at][i] != '@' {
        assert s[..at][i] == s[i];
      }
    }
  }

  lemma AllowedAroundAt(s: string, at: nat)
    requires at < |s| && s[at] == '@'
    requires '@' !in s[..at] && '@' !in s[at + 1..]
    ensures AllAllowed(s) <==> AllAddressChars(s[..at]) && AllAddressChars(s[at + 1..])
  {
    var local, domain := s[..at], s[at + 1..];
    if AllAllowed(s) {
      forall i | 0 <= i < |local| ensures IsAddressChar(local[i]) {
        assert local[i] == s[i];
      }
      forall i | 0 <= i < |domain| ensures IsAddressChar(domain[i]) {
        assert domain[i] == s[at + 1 + i];
      }
    }
    if AllAddressChars(local) && AllAddressChars(domain) {
      forall i | 0 <= i < |s| ensures IsAllowedChar(s[i]) {
        if i < at {
          assert s[i] == local[i];
        } else if i > at {
          assert s[i] == domain[i - at - 1];
        }
      }
    }
  }

  /** The automaton ends in its accepting state exactly on well-formed addresses. */
  lemma AcceptedIffWellFormed(s: string)
    ensures Describe(s) == Tld2 <==> WellFormedAddress(s)
  {
    if Count(s, '@') == 1 {
      SplitAtOnlyAt(s);
      var at := IndexOf(s, '@');
      AllowedAroundAt(s, at);
    }
  }

  /**
   * Backtracking cannot pick another decomposition: any split of `s` that
   * fits the pattern puts the '@' at the only '@' of `s` and the escaped dot
   * at the last '.' of the domain.
   */
  lemma PatternSplitIsUnique(s: string, at: int, dot: int)
    requires PatternSplit(s, at, dot)
    ensures Count(s, '@') == 1
    ensures at == IndexOf(s, '@')
    ensures dot == at + 1 + LastIndexOf(s[at + 1..], '.')
  {
    var local, rest := s[..at], s[at + 1..];
    forall i | 0 <= i < |rest| ensures rest[i] != '@' {
      var j := at + 1 + i;
      assert rest[i] == s[j];
      if j < dot {
        assert s[j] == s[at + 1..dot][j - at - 1];
      } else if j > dot {
        assert s[j] == s[dot + 1..][j - dot - 1];
      }
    }
    forall i | 0 <= i < at ensures s[i] != '@' {
      assert s[i] == local[i];
    }
    IndexOfUnique(s, '@', at);
    CountAround(s, at, '@');
    assert '@' !in local;
    var k := dot - at - 1;
    forall i | k < i < |rest| ensures rest[i] != '.' {
      assert rest[i] == s[dot + 1..][i - k - 1];
    }
    LastIndexOfUnique(rest, '.', k);
  }

  lemma PatternSplitIsWellFormed(s: string, at: int, dot: int)
    requires PatternSplit(s, at, dot)
    ensures WellFormedAddress(s)
  {
    PatternSplitIsUnique(s, at, dot);
    var domain := s[at + 1..];
    var k := dot - at - 1;
    forall i | 0 <= i < |domain| ensures IsAddressChar(domain[i]) {
      if i < k {
        assert domain[i] == s[at + 1..dot][i];
      } else if i > k {
        assert domain[i] == s[dot + 1..][i - k - 1];
      }
    }
    assert domain[k + 1..] == s[dot + 1..];
  }

  lemma WellFormedHasPatternSplit(s: string)
    requires WellFormedAddress(s)
    ensures MatchesPattern(s)
  {
    var at := IndexOf(s, '@');
    var domain := s[at + 1..];
    var k := LastIndexOf(domain, '.');
    var dot := at + 1 + k;
    assert s[at + 1..dot] == domain[..k];
    assert s[dot + 1..] == domain[k + 1..];
    assert PatternSplit(s, at, dot);
  }

  /** The characterisation describes exactly the language of the regular expression. */
  lemma WellFormedIffMatchesPattern(s: string)
    ensures WellFormedAddress(s) <==> MatchesPattern(s)
  {
    if MatchesPattern(s) {
      var at, dot :| PatternSplit(s, at, dot);
      PatternSplitIsWellFormed(s, at, dot);
    }
    if WellFormedAddress(s) {
      WellFormedHasPatternSplit(s);
    }
  }

  // ---------------------------------------------------------------------
  // Consequences of the anchors
  // ---------------------------------------------------------------------

  /** No '@', or two or more, is always rejected. */
  lemma RejectsUnlessExactlyOneAt(s: string)
    requires Count(s, '@') != 1
    ensures !IsValidEmail(s)
  {
    IsValidEmailCorrect(s);
  }

  /** Without a '.' there is no top-level label to match. */
  lemma RejectsWithoutDot(s: string)
    requires '.' !in s
    ensures !IsValidEmail(s)
  {
    IsValidEmailCorrect(s);
  }

  /** A character outside `[A-Za-z0-9_.@-]` anywhere, whitespace included, is always rejected. */
  lemma RejectsForeignChar(s: string, i: nat)
    requires i < |s| && !IsAllowedChar(s[i])
    ensures !IsValidEmail(s)
  {
    IsValidEmailCorrect(s);
  }

  /** An accepted address padded with anything outside the classes is rejected: the match is not a substring search. */
  lemma RejectsPadding(s: string, c: char)
    requires !IsAllowedChar(c)
    ensures !IsValidEmail([c] + s) && !IsValidEmail(s + [c])
  {
    RejectsForeignChar([c] + s, 0);
    RejectsForeignChar(s + [c], |s|);
  }
}
