/** The e-mail address pattern `^[^\s@]+@[^\s@]+\.[^\s@]+$`, which the order and the author
    schemas both apply. */
module Email {
  import opened Text

  /** A non-empty run of characters that are neither whitespace nor '@' (`[^\s@]+`). */
  predicate Segment(t: string)
  {
    |t| > 0 && forall k :: 0 <= k < |t| ==> !IsWhitespace(t[k]) && t[k] != '@'
  }

  /** The pattern read as a decomposition: `s` is A '@' B '.' C with A, B, C segments. */
  predicate ValidEmail(s: string)
  {
    exists i, j :: 0 <= i < j < |s| && s[i] == '@' && s[j] == '.'
      && Segment(s[..i]) && Segment(s[i + 1..j]) && Segment(s[j + 1..])
  }

  /** The same shape stated as rules about characters: no whitespace; exactly one '@', not the
      first character; after it a '.' that is neither the first nor the last character of the
      part after the '@'. */
  predicate EmailRule(s: string)
  {
    && (forall k :: 0 <= k < |s| ==> !IsWhitespace(s[k]))
    && (exists i :: 0 < i < |s| && s[i] == '@'
         && (forall k :: 0 <= k < |s| && k != i ==> s[k] != '@')
         && exists j :: i + 1 < j < |s| - 1 && s[j] == '.')
  }

  lemma ValidEmailMeansRule(s: string)
    requires ValidEmail(s)
    ensures EmailRule(s)
  {
    var i, j :| 0 <= i < j < |s| && s[i] == '@' && s[j] == '.'
      && Segment(s[..i]) && Segment(s[i + 1..j]) && Segment(s[j + 1..]);
    forall k | 0 <= k < |s| && k != i
      ensures !IsWhitespace(s[k]) && s[k] != '@'
    {
      if k < i {
        assert s[..i][k] == s[k];
      } else if k < j {
        assert s[i + 1..j][k - i - 1] == s[k];
      } else if j < k {
        assert s[j + 1..][k - j - 1] == s[k];
      }
    }
    assert i + 1 < j < |s| - 1;
  }

  lemma RuleMeansValidEmail(s: string)
    requires EmailRule(s)
    ensures ValidEmail(s)
  {
    var i :| 0 < i < |s| && s[i] == '@'
      && (forall k :: 0 <= k < |s| && k != i ==> s[k] != '@')
      && exists j :: i + 1 < j < |s| - 1 && s[j] == '.';
    var j :| i + 1 < j < |s| - 1 && s[j] == '.';
    assert Segment(s[..i]);
    assert Segment(s[i + 1..j]);
    assert Segment(s[j + 1..]);
  }

  lemma ValidEmailIsRule(s: string)
    ensures ValidEmail(s) <==> EmailRule(s)
  {
    if ValidEmail(s) {
      ValidEmailMeansRule(s);
    }
    if EmailRule(s) {
      RuleMeansValidEmail(s);
    }
  }

  lemma AcceptedEmail()
    ensures ValidEmail("ann@example.com")
  {
    var good := "ann@example.com";
    assert good[..3] == "ann" && good[4..11] == "example" && good[12..] == "com";
    assert good[3] == '@' && good[11] == '.' && Segment(good[..3]) && Segment(good[4..11]) && Segment(good[12..]);
  }

  lemma AcceptedDottedEmail()
    ensures ValidEmail("a.b@mail.example.org")
  {
    var dotted := "a.b@mail.example.org";
    assert dotted[3] == '@' && dotted[16] == '.';
    assert Segment(dotted[..3]) && Segment(dotted[4..16]) && Segment(dotted[17..]);
  }

  lemma RejectedWithoutDot()
    ensures !ValidEmail("ann@ex")
  {
    if ValidEmail("ann@ex") {
      ValidEmailMeansRule("ann@ex");
    }
  }

  lemma RejectedWithEmptyLocalPart()
    ensures !ValidEmail("@ex.com")
  {
    if ValidEmail("@ex.com") {
      ValidEmailMeansRule("@ex.com");
    }
  }

  lemma RejectedWithTwoAts()
    ensures !ValidEmail("a@@ex.com")
  {
    var s := "a@@ex.com";
    assert s[1] == '@' && s[2] == '@';
    if ValidEmail(s) {
      ValidEmailMeansRule(s);
    }
  }

  lemma RejectedWithSpace()
    ensures !ValidEmail("a b@ex.com")
  {
    var s := "a b@ex.com";
    assert IsWhitespace(s[1]);
    if ValidEmail(s) {
      ValidEmailMeansRule(s);
    }
  }

  lemma RejectedWithTrailingDot()
    ensures !ValidEmail("ann@ex.")
  {
    if ValidEmail("ann@ex.") {
      ValidEmailMeansRule("ann@ex.");
    }
  }
}
