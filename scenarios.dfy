/** Sessions with a fresh element, as a page would drive it: the field's text
    is set the way a user's typing sets it, then a key goes down. */
module Scenarios {
  import opened Text
  import opened Email
  import opened Badge

  /** An '@' at index `a` that the scan accepts. */
  lemma AcceptedAt(s: string, a: int)
    requires 1 <= a && a + 1 < |s| && s[a] == '@' && InClass(s[a - 1]) && InClass(s[a + 1])
    requires DotFollowsFrom(s, a + 2)
    ensures IsEmail(s)
  {
  }

  lemma SampleAddressAccepted()
    ensures IsEmail("a@b.co")
  {
    var s := "a@b.co";
    assert s[3] == '.' && InClass(s[4]);
    AcceptedAt(s, 1);
  }

  lemma SampleBracketedAccepted()
    ensures IsEmail("<x@y.com>")
  {
    var s := "<x@y.com>";
    assert s[3] == 'y' && s[4] == '.' && InClass(s[5]);
    AcceptedAt(s, 2);
  }

  lemma SampleNoAtRejected()
    ensures !IsEmail("not-an-email")
  {
    var s := "not-an-email";
    assert forall a | 0 <= a < |s| :: s[a] != '@';
  }

  lemma TrimKeepsUnpadded(s: string)
    requires s != [] && !IsWhitespace(s[0]) && !IsWhitespace(s[|s| - 1])
    ensures Trim(s) == s
  {
  }

  lemma SampleTrims()
    ensures Trim("a@b.co") == "a@b.co"
    ensures Trim("not-an-email") == "not-an-email"
    ensures Trim("<x@y.com>") == "<x@y.com>"
  {
    TrimKeepsUnpadded("a@b.co");
    TrimKeepsUnpadded("not-an-email");
    TrimKeepsUnpadded("<x@y.com>");
  }

  lemma SampleLeadingSpaceTrim()
    ensures Trim(" a@b.co") == "a@b.co"
  {
    var s := " a@b.co";
    assert IsWhitespace(s[0]);
    assert s[1..] == "a@b.co";
    TrimKeepsUnpadded("a@b.co");
  }

  lemma SampleBlankTrim()
    ensures Trim("   ") == ""
  {
    TrimEmptyIffAllWhitespace("   ");
  }

  lemma SampleKeys()
    ensures "Enter" in TriggerKeys && "Tab" in TriggerKeys && "," in TriggerKeys
    ensures "x" !in TriggerKeys
  {
    assert TriggerKeys[0] == "Enter" && TriggerKeys[1] == "Tab" && TriggerKeys[2] == ",";
  }

  /** A well-formed address typed into an empty element and committed with a
      trigger key becomes the only entry, and the field is reset. */
  lemma FirstAddressAccepted(email: string, key: string)
    requires key in TriggerKeys && IsEmail(email) && Trim(email) == email
    ensures Run(Initial, [KeyPress(email, key)]) == View([email], "", true, false, " ")
  {
    var presses := [KeyPress(email, key)];
    var v := Initial.(inputValue := email);
    AcceptAppends(v, key);
    assert Run(Initial, presses) == Run(Step(v, key), []);
  }

  /** The same address entered twice, the second time with any whitespace
      padding (the field text after an acceptance may still carry the reset
      space): the second attempt is reported as a duplicate, the list keeps
      one entry and the field keeps the text. */
  lemma DuplicateSession(email: string, retyped: string, key: string)
    requires key in TriggerKeys && IsEmail(email) && Trim(email) == email
    requires Trim(retyped) == email
    ensures Run(Initial, [KeyPress(email, key), KeyPress(retyped, key)])
            == View([email], DuplicateMessage(email), false, true, retyped)
  {
    var presses := [KeyPress(email, key), KeyPress(retyped, key)];
    FirstAddressAccepted(email, key);
    RunSplits(Initial, presses[..1], presses[1..]);
    assert presses[..1] + presses[1..] == presses;
    SecondAttemptRejected(email, retyped, key);
  }

  lemma SecondAttemptRejected(email: string, retyped: string, key: string)
    requires key in TriggerKeys && IsEmail(email) && Trim(retyped) == email
    ensures Run(View([email], "", true, false, " "), [KeyPress(retyped, key)])
            == View([email], DuplicateMessage(email), false, true, retyped)
  {
    var v := View([email], "", true, false, retyped);
    assert ValidationError(v.items, email) == Some(DuplicateMessage(email));
    assert Step(v, key) == View([email], DuplicateMessage(email), false, true, retyped);
    assert Run(View([email], "", true, false, " "), [KeyPress(retyped, key)]) == Run(Step(v, key), []);
  }

  /** A malformed text is reported, the field is styled as in error, and
      nothing is added. */
  lemma MalformedSession(text: string, key: string)
    requires key in TriggerKeys && text != "" && !IsEmail(text) && Trim(text) == text
    ensures Run(Initial, [KeyPress(text, key)])
            == View([], InvalidMessage(text), false, true, text)
  {
    var presses := [KeyPress(text, key)];
    assert Run(Initial, presses) == Run(Step(Initial.(inputValue := text), key), []);
  }

  /** A trigger key on a blank field adds nothing and shows nothing. */
  lemma BlankSession(text: string, key: string)
    requires key in TriggerKeys && AllWhitespace(text)
    ensures Run(Initial, [KeyPress(text, key)]) == Initial.(inputValue := text)
  {
    var presses := [KeyPress(text, key)];
    TrimEmptyIffAllWhitespace(text);
    assert Run(Initial, presses) == Run(Step(Initial.(inputValue := text), key), []);
  }

  /** After a rejected text, the next ordinary key hides the error and
      removes the error styling without touching the list or the field. */
  lemma NextKeyClearsErrorSession(text: string, trigger: string, other: string)
    requires trigger in TriggerKeys && other !in TriggerKeys
    requires text != "" && !IsEmail(text) && Trim(text) == text
    ensures Run(Initial, [KeyPress(text, trigger), KeyPress(text, other)])
            == View([], InvalidMessage(text), true, false, text)
  {
    var presses := [KeyPress(text, trigger), KeyPress(text, other)];
    MalformedSession(text, trigger);
    var v1 := View([], InvalidMessage(text), false, true, text);
    assert Run(Initial, presses[..1]) == v1;
    RunSplits(Initial, presses[..1], presses[1..]);
    assert presses[..1] + presses[1..] == presses;
    assert Run(v1, presses[1..]) == Run(Step(v1, other), []);
  }

  // The same sessions driven through the element's methods, as a page would
  // drive it: set the field's text, then dispatch a key-down.

  method DuplicateRejected(email: string, retyped: string, key: string)
    returns (message: string, shown: bool, count: nat)
    requires key in TriggerKeys && IsEmail(email) && Trim(email) == email
    requires Trim(retyped) == email
    ensures message == DuplicateMessage(email)
    ensures shown && count == 1
  {
    var b := new BadgeInput();
    b.inputValue := email;
    b.HandleKeyDown(key);
    b.inputValue := retyped;
    b.HandleKeyDown(key);
    ghost var presses := [KeyPress(email, key), KeyPress(retyped, key)];
    DuplicateSession(email, retyped, key);
    assert Run(Initial, presses) == Run(Step(Initial.(inputValue := email), key), presses[1..]);
    message, shown, count := b.errorText, !b.errorHidden, |b.items|;
  }

  method MalformedRejected(text: string, key: string)
    returns (message: string, shown: bool, flagged: bool, count: nat)
    requires key in TriggerKeys && text != "" && !IsEmail(text) && Trim(text) == text
    ensures message == InvalidMessage(text)
    ensures shown && flagged && count == 0
  {
    var b := new BadgeInput();
    b.inputValue := text;
    b.HandleKeyDown(key);
    MalformedSession(text, key);
    message, shown, flagged, count := b.errorText, !b.errorHidden, b.inputHasError, |b.items|;
  }

  method BlankIgnored(text: string, key: string) returns (shown: bool, count: nat, field: string)
    requires key in TriggerKeys && AllWhitespace(text)
    ensures !shown && count == 0 && field == text
  {
    var b := new BadgeInput();
    b.inputValue := text;
    b.HandleKeyDown(key);
    BlankSession(text, key);
    shown, count, field := !b.errorHidden, |b.items|, b.inputValue;
  }

  method NextKeyClearsError(text: string, trigger: string, other: string)
    returns (shownBefore: bool, shownAfter: bool, flaggedAfter: bool, count: nat)
    requires trigger in TriggerKeys && other !in TriggerKeys
    requires text != "" && !IsEmail(text) && Trim(text) == text
    ensures shownBefore && !shownAfter && !flaggedAfter && count == 0
  {
    var b := new BadgeInput();
    b.inputValue := text;
    b.HandleKeyDown(trigger);
    MalformedSession(text, trigger);
    shownBefore := !b.errorHidden;
    b.HandleKeyDown(other);
    NonTriggerKeyOnlyClears(b.Snapshot(), other);
    shownAfter, flaggedAfter, count := !b.errorHidden, b.inputHasError, |b.items|;
  }
}
