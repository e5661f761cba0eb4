/** The email shape check `^[^@]+@[^@]+\.[^@]+$`: a non-empty local part without `@`, one
    `@`, then a domain without `@` that has a `.` with at least one character on each side. */
module Email {
  import opened Model

  /** A non-empty run of characters other than `@` (the regular expression's `[^@]+`). */
  ghost predicate Run(x: string) {
    x != [] && '@' !in x
  }

  /** The language of the regular expression, written as its concatenation. */
  ghost predicate EmailShape(s: string) {
    exists local, host, tld :: Run(local) && Run(host) && Run(tld) && s == local + "@" + host + "." + tld
  }

  /** The position of the first `c` in `s`. */
  function IndexOf(s: string, c: char): (r: Option<nat>)
    ensures r.Some? ==> r.value < |s| && s[r.value] == c && c !in s[..r.value]
    ensures r.None? <==> c !in s
  {
    if s == [] then None
    else if s[0] == c then Some(0)
    else match IndexOf(s[1..], c)
      case None => None
      case Some(i) =>
        assert s[..i + 1] == [s[0]] + s[1..][..i];
        Some(i + 1)
  }

  /** A `.` strictly inside `d`: neither its first nor its last character. */
  function HasInnerDot(d: string): bool {
    |d| >= 3 && '.' in d[1..|d| - 1]
  }

  /** The check `reEmail.MatchString` performs: everything before the first `@` is the
      local part, and what follows it must hold no further `@` and an inner dot. */
  function IsEmail(s: string): bool {
    match IndexOf(s, '@')
    case None => false
    case Some(i) => 0 < i && '@' !in s[i + 1..] && HasInnerDot(s[i + 1..])
  }

  lemma RunOfSlice(s: string, i: nat, j: nat)
    requires i <= j <= |s| && '@' !in s
    ensures '@' !in s[i..j]
  {
  }

  /** Every string the check accepts matches the regular expression. */
  lemma AcceptedHasShape(s: string)
    requires IsEmail(s)
    ensures EmailShape(s)
  {
    var i := IndexOf(s, '@').value;
    var local, d := s[..i], s[i + 1..];
    SplitAt(s, i);
    assert s == local + "@" + d;
    var host, tld := SplitDomain(d);
    assert s == local + "@" + host + "." + tld;
  }

  /** A domain without `@` that has an inner dot is two runs joined by that dot. */
  lemma SplitDomain(d: string) returns (host: string, tld: string)
    requires '@' !in d && HasInnerDot(d)
    ensures Run(host) && Run(tld) && d == host + "." + tld
  {
    var j :| 0 <= j < |d| - 2 && d[1..|d| - 1][j] == '.';
    var k := j + 1;
    assert d[k] == '.';
    host, tld := d[..k], d[k + 1..];
    RunOfSlice(d, 0, k);
    RunOfSlice(d, k + 1, |d|);
    SplitAt(d, k);
  }

  lemma SplitAt(s: string, i: nat)
    requires i < |s|
    ensures s == s[..i] + [s[i]] + s[i + 1..]
  {
  }

  /** Every string the regular expression matches is accepted by the check. */
  lemma ShapeIsAccepted(s: string)
    requires EmailShape(s)
    ensures IsEmail(s)
  {
    var local, host, tld :| Run(local) && Run(host) && Run(tld) && s == local + "@" + host + "." + tld;
    PartsAccepted(local, host, tld);
  }

  /** Three runs joined by `@` and `.` are accepted. */
  lemma PartsAccepted(local: string, host: string, tld: string)
    requires Run(local) && Run(host) && Run(tld)
    ensures IsEmail(local + "@" + host + "." + tld)
  {
    var s := local + "@" + host + "." + tld;
    var i := |local|;
    var d := host + "." + tld;
    assert s == local + ['@'] + d;
    assert s[..i] == local && s[i] == '@' && s[i + 1..] == d;
    FirstAt(s, i);
    DotJoinHasNoAt(host, tld);
    assert d[1..|d| - 1][|host| - 1] == '.';
  }

  /** Two runs joined by a dot hold no `@`. */
  lemma DotJoinHasNoAt(host: string, tld: string)
    requires Run(host) && Run(tld)
    ensures '@' !in host + "." + tld
  {
    assert multiset(host + "." + tld) == multiset(host) + multiset{'.'} + multiset(tld);
  }

  /** An `@` with none before it is the one `IndexOf` finds. */
  lemma FirstAt(s: string, i: nat)
    requires i < |s| && s[i] == '@' && '@' !in s[..i]
    ensures IndexOf(s, '@') == Some(i)
  {
  }

  /** The check accepts exactly the strings the regular expression matches. */
  lemma IsEmailMatchesShape(s: string)
    ensures IsEmail(s) <==> EmailShape(s)
  {
    if IsEmail(s) {
      AcceptedHasShape(s);
    }
    if EmailShape(s) {
      ShapeIsAccepted(s);
    }
  }

  /** An accepted address holds exactly one `@`. */
  lemma ShapeHasOneAt(s: string)
    requires EmailShape(s)
    ensures multiset(s)['@'] == 1
  {
    var local, host, tld :| Run(local) && Run(host) && Run(tld) && s == local + "@" + host + "." + tld;
    assert multiset(s) == multiset(local) + multiset{'@'} + multiset(host) + multiset{'.'} + multiset(tld);
  }
}
