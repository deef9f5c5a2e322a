/** The login rule: an identifier is accepted only when, once stripped of
    surrounding whitespace, it ends with the Gmail domain. */
module Identity {
  import opened Text

  const Domain: string := "@gmail.com"

  predicate AcceptsEmail(email: string) {
    EndsWith(Strip(email), Domain)
  }

  /** The stripped name is accepted again: logging in with the stored name
      would give the same name. */
  lemma AcceptedNameStable(email: string)
    requires AcceptsEmail(email)
    ensures AcceptsEmail(Strip(email)) && Strip(Strip(email)) == Strip(email)
  {
    StripIdempotent(email);
  }

  /** A non-Gmail address is refused. */
  lemma RefusesOtherDomain()
    ensures !AcceptsEmail("a@b.com")
  {
    StripTrimmed("a@b.com");
  }

  /** A Gmail address is accepted as it is. */
  lemma AcceptsGmail()
    ensures AcceptsEmail("user@gmail.com") && Strip("user@gmail.com") == "user@gmail.com"
  {
    StripTrimmed("user@gmail.com");
  }

  /** Whitespace around a Gmail address is dropped before the check. */
  lemma AcceptsPaddedGmail()
    ensures AcceptsEmail(" user@gmail.com\n") && Strip(" user@gmail.com\n") == "user@gmail.com"
  {
    var core := "user@gmail.com";
    assert " user@gmail.com\n" == [' '] + core + ['\n'];
    StripPadded(core, ' ', '\n');
    AcceptsGmail();
  }
}
