/** A recogniser for the registration e-mail pattern
      ^([0-9a-zA-Z]([-.\w]*[0-9a-zA-Z])*@([0-9a-zA-Z][-\w]*[0-9a-zA-Z]\.)+[a-zA-Z]{2,9})$
    written as the language it denotes: a local part, one '@', one or more dot-terminated
    labels and a two-to-nine letter top-level part. */
module EmailPattern {

  predicate IsLetter(c: char) {
    ('a' <= c <= 'z') || ('A' <= c <= 'Z')
  }

  /** [0-9a-zA-Z] */
  predicate IsAlnum(c: char) {
    ('0' <= c <= '9') || IsLetter(c)
  }

  /** \w */
  predicate IsWordChar(c: char) {
    IsAlnum(c) || c == '_'
  }

  /** [0-9a-zA-Z]([-.\w]*[0-9a-zA-Z])* : alphanumeric at both ends, word characters,
      '-' and '.' in between. */
  predicate IsLocalPart(s: string) {
    |s| >= 1 && IsAlnum(s[0]) && IsAlnum(s[|s| - 1]) &&
    forall i :: 0 <= i < |s| ==> IsWordChar(s[i]) || s[i] == '-' || s[i] == '.'
  }

  /** [0-9a-zA-Z][-\w]*[0-9a-zA-Z] : at least two characters, no dot. */
  predicate IsLabel(s: string) {
    |s| >= 2 && IsAlnum(s[0]) && IsAlnum(s[|s| - 1]) &&
    forall i :: 0 <= i < |s| ==> IsWordChar(s[i]) || s[i] == '-'
  }

  /** ([0-9a-zA-Z][-\w]*[0-9a-zA-Z]\.)+ */
  predicate IsLabels(s: string)
    decreases |s|
  {
    exists k :: 0 <= k < |s| && s[k] == '.' && IsLabel(s[..k]) && (k == |s| - 1 || IsLabels(s[k + 1..]))
  }

  /** [a-zA-Z]{2,9} */
  predicate IsTopLevel(s: string) {
    2 <= |s| <= 9 && forall i :: 0 <= i < |s| ==> IsLetter(s[i])
  }

  predicate IsDomain(s: string) {
    exists k :: 0 <= k < |s| && s[k] == '.' && IsLabels(s[..k + 1]) && IsTopLevel(s[k + 1..])
  }

  /** The whole pattern, anchored at both ends. */
  predicate MatchesEmailPattern(s: string) {
    exists k :: 0 <= k < |s| && s[k] == '@' && IsLocalPart(s[..k]) && IsDomain(s[k + 1..])
  }

  /** The number of times c occurs in s. */
  function Occurrences(s: string, c: char): nat {
    if s == [] then 0 else (if s[0] == c then 1 else 0) + Occurrences(s[1..], c)
  }

  lemma {:induction false} OccurrencesConcat(a: string, b: string, c: char)
    ensures Occurrences(a + b, c) == Occurrences(a, c) + Occurrences(b, c)
  {
    if a == [] {
      assert a + b == b;
    } else {
      assert (a + b)[0] == a[0] && (a + b)[1..] == a[1..] + b;
      OccurrencesConcat(a[1..], b, c);
    }
  }

  lemma {:induction false} NoOccurrences(s: string, c: char)
    requires forall i :: 0 <= i < |s| ==> s[i] != c
    ensures Occurrences(s, c) == 0
  {
    if s != [] {
      NoOccurrences(s[1..], c);
    }
  }

  /** '@' is neither a word character nor '-' nor '.'. */
  lemma AtIsNotAPatternChar(c: char)
    requires IsWordChar(c) || c == '-' || c == '.'
    ensures c != '@'
  {
  }

  lemma LocalPartHasNoAt(s: string)
    requires IsLocalPart(s)
    ensures forall i :: 0 <= i < |s| ==> s[i] != '@'
  {
    forall i | 0 <= i < |s| ensures s[i] != '@' {
      AtIsNotAPatternChar(s[i]);
    }
  }

  lemma {:induction false} LabelsHaveNoAt(s: string)
    requires IsLabels(s)
    decreases |s|
    ensures forall i :: 0 <= i < |s| ==> s[i] != '@'
  {
    var k :| 0 <= k < |s| && s[k] == '.' && IsLabel(s[..k]) && (k == |s| - 1 || IsLabels(s[k + 1..]));
    if k < |s| - 1 {
      LabelsHaveNoAt(s[k + 1..]);
    }
    forall i | 0 <= i < |s| ensures s[i] != '@' {
      if i < k {
        assert s[..k][i] == s[i];
      } else if i > k {
        assert s[k + 1..][i - k - 1] == s[i];
      }
    }
  }

  lemma DomainHasNoAt(s: string)
    requires IsDomain(s)
    ensures forall i :: 0 <= i < |s| ==> s[i] != '@'
  {
    var k :| 0 <= k < |s| && s[k] == '.' && IsLabels(s[..k + 1]) && IsTopLevel(s[k + 1..]);
    LabelsHaveNoAt(s[..k + 1]);
    forall i | 0 <= i < |s| ensures s[i] != '@' {
      if i <= k {
        assert s[..k + 1][i] == s[i];
      } else {
        assert s[k + 1..][i - k - 1] == s[i];
      }
    }
  }

  /** s ends in a dot followed by two to nine ASCII letters. */
  predicate EndsWithTopLevel(s: string) {
    exists k :: 0 <= k < |s| && s[k] == '.' && IsTopLevel(s[k + 1..])
  }

  lemma {:induction false} SplitAtCount(s: string, k: nat)
    requires k < |s| && s[k] == '@'
    requires forall i :: 0 <= i < |s| && i != k ==> s[i] != '@'
    ensures Occurrences(s, '@') == 1
  {
    assert s == s[..k] + [s[k]] + s[k + 1..];
    NoOccurrences(s[..k], '@');
    NoOccurrences(s[k + 1..], '@');
    OccurrencesConcat(s[..k] + [s[k]], s[k + 1..], '@');
    OccurrencesConcat(s[..k], [s[k]], '@');
  }

  /** A character absent from the text before k and from the text after k is absent
      everywhere but at k. */
  lemma AbsentAroundIndex(s: string, k: nat, c: char, before: string, after: string)
    requires k < |s| && before == s[..k] && after == s[k + 1..]
    requires forall i :: 0 <= i < |before| ==> before[i] != c
    requires forall i :: 0 <= i < |after| ==> after[i] != c
    ensures forall i :: 0 <= i < |s| && i != k ==> s[i] != c
  {
    forall i | 0 <= i < |s| && i != k ensures s[i] != c {
      if i < k {
        assert before[i] == s[i];
      } else {
        assert after[i - k - 1] == s[i];
      }
    }
  }

  /** Every accepted address has exactly one '@'. */
  lemma AcceptedAddressHasOneAt(s: string)
    requires MatchesEmailPattern(s)
    ensures Occurrences(s, '@') == 1
  {
    var k :| 0 <= k < |s| && s[k] == '@' && IsLocalPart(s[..k]) && IsDomain(s[k + 1..]);
    var local, domain := s[..k], s[k + 1..];
    LocalPartHasNoAt(local);
    DomainHasNoAt(domain);
    AbsentAroundIndex(s, k, '@', local, domain);
    SplitAtCount(s, k);
  }

  /** Every accepted address ends in a dot followed by two to nine ASCII letters. */
  lemma AcceptedAddressEndsWithTopLevel(s: string)
    requires MatchesEmailPattern(s)
    ensures EndsWithTopLevel(s)
  {
    var k :| 0 <= k < |s| && s[k] == '@' && IsLocalPart(s[..k]) && IsDomain(s[k + 1..]);
    var domain := s[k + 1..];
    var j :| 0 <= j < |domain| && domain[j] == '.' && IsLabels(domain[..j + 1]) && IsTopLevel(domain[j + 1..]);
    assert s[k + 1 + j] == '.';
    assert s[k + 1 + j + 1..] == domain[j + 1..];
  }

  /** The domain of the address below: one label, a dot and "com". */
  lemma SampleDomainMatches()
    ensures IsDomain("fakemail.com")
  {
    var d := "fakemail.com";
    var labels := d[..9];
    assert labels[..8] == "fakemail" && labels[8] == '.';
    assert IsLabel(labels[..8]);
    assert IsLabels(labels);
    assert d[8] == '.';
    assert d[9..] == "com";
  }

  /** A local part, an '@' and a domain, in that order, form an accepted address. */
  lemma LocalAtDomainMatches(local: string, domain: string)
    requires IsLocalPart(local) && IsDomain(domain)
    ensures MatchesEmailPattern(local + "@" + domain)
  {
    var s := local + "@" + domain;
    assert s[|local|] == '@';
    assert s[..|local|] == local;
    assert s[|local| + 1..] == domain;
  }

  lemma SampleLocalPartMatches()
    ensures IsLocalPart("johndoe")
  {
  }

  /** The address the tests of the repository register with, johndoe@fakemail.com, is accepted. */
  lemma SampleAddressMatches()
    ensures MatchesEmailPattern("johndoe" + "@" + "fakemail.com")
  {
    SampleLocalPartMatches();
    SampleDomainMatches();
    LocalAtDomainMatches("johndoe", "fakemail.com");
  }

  /** An address with two '@' is rejected. */
  lemma DoubleAtIsRejected()
    ensures !MatchesEmailPattern("john@doe@mail.com")
  {
    if MatchesEmailPattern("john@doe@mail.com") {
      AcceptedAddressHasOneAt("john@doe@mail.com");
      assert false;
    }
  }
}
