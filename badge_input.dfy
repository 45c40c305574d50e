/** The state machine of the `badge-input` element: the accepted addresses,
    the error paragraph, the error styling of the field and the field's text,
    driven by key-down events on the field. */
module Badge {
  import opened Text
  import opened Email

  datatype Option<T> = None | Some(value: T)

  /** The keys that try to commit the field's text as an address. */
  const TriggerKeys: seq<string> := ["Enter", "Tab", ","]

  /** What the code assigns to the field once an address has been accepted. */
  const ResetValue: string := " "

  function DuplicateMessage(email: string): string {
    email + " has already been added"
  }

  function InvalidMessage(email: string): string {
    email + " is not a valid email address"
  }

  /** The message `validate` reports for `email` against `items`, if any:
      a malformed address is reported as such whether or not it is also a
      duplicate, and only a well-formed duplicate is reported as a duplicate. */
  function ValidationError(items: seq<string>, email: string): Option<string> {
    if !IsEmail(email) then Some(InvalidMessage(email))
    else if email in items then Some(DuplicateMessage(email))
    else None
  }

  predicate NoDuplicates(items: seq<string>) {
    forall i, j | 0 <= i < j < |items| :: items[i] != items[j]
  }

  /** What the component keeps true of its list: no address twice, and every
      address passed the format check. */
  predicate WellFormedList(items: seq<string>) {
    NoDuplicates(items) && forall i | 0 <= i < |items| :: IsEmail(items[i])
  }

  /** The component's observable state: the accepted addresses in order, the
      error paragraph's text, whether it is hidden, whether the field carries
      the `has-error` class, and the field's text. */
  datatype View = View(
    items: seq<string>,
    errorText: string,
    errorHidden: bool,
    inputHasError: bool,
    inputValue: string)

  /** The state a new element starts in: no addresses, an empty hidden
      paragraph, no error styling, an empty field. */
  const Initial: View := View([], "", true, false, "")

  /** The effect of one key-down with key `key` on state `v`. */
  function Step(v: View, key: string): View {
    var cleared := v.(errorHidden := true, inputHasError := false);
    if key !in TriggerKeys then cleared
    else
      var value := Trim(v.inputValue);
      if value == "" then cleared
      else
        match ValidationError(v.items, value)
        case Some(message) =>
          cleared.(errorText := message, errorHidden := false, inputHasError := true)
        case None =>
          cleared.(items := v.items + [value], inputValue := ResetValue)
  }

  /** One key press, together with the text the field holds when it happens
      (the browser edits the field between key-downs). */
  datatype KeyPress = KeyPress(fieldText: string, key: string)

  /** The state after a session of key presses. */
  function Run(v: View, presses: seq<KeyPress>): View
    decreases |presses|
  {
    if presses == [] then v
    else Run(Step(v.(inputValue := presses[0].fieldText), presses[0].key), presses[1..])
  }

  class BadgeInput {
    /** The accepted addresses, in order of acceptance. */
    var items: seq<string>
    /** The text of the error paragraph. */
    var errorText: string
    /** Whether the error paragraph carries the `hidden` attribute. */
    var errorHidden: bool
    /** Whether the field carries the `has-error` class. */
    var inputHasError: bool
    /** The field's current text. */
    var inputValue: string

    ghost function Snapshot(): View
      reads this
    {
      View(items, errorText, errorHidden, inputHasError, inputValue)
    }

    ghost predicate Valid()
      reads this
    {
      WellFormedList(items)
    }

    constructor ()
      ensures Snapshot() == Initial
      ensures Valid()
    {
      items := [];
      errorText := "";
      errorHidden := true;
      inputHasError := false;
      inputValue := "";
    }

    /** `isInList`: `email` is one of the accepted addresses. */
    function IsInList(email: string): (r: bool)
      reads this
      ensures r <==> exists k :: 0 <= k < |items| && items[k] == email
    {
      email in items
    }

    /** `validate`: the duplicate check first, then the format check, whose
        message replaces the duplicate one; on a failure the message is shown
        and the field is styled as in error, on success nothing changes. */
    method Validate(email: string) returns (ok: bool)
      modifies this`errorText, this`errorHidden, this`inputHasError
      ensures ok <==> !IsInList(email) && IsEmail(email)
      ensures ok ==> ValidationError(items, email) == None
      ensures ok ==> errorText == old(errorText) && errorHidden == old(errorHidden)
                     && inputHasError == old(inputHasError)
      ensures !ok ==> Some(errorText) == ValidationError(items, email)
                      && !errorHidden && inputHasError
    {
      var error: Option<string> := None;
      if IsInList(email) {
        error := Some(DuplicateMessage(email));
      }
      if !IsEmail(email) {
        error := Some(InvalidMessage(email));
      }
      if error.Some? {
        errorText := error.value;
        errorHidden := false;
        inputHasError := true;
        return false;
      }
      return true;
    }

    /** `handleKeyDown`: hide the error, and on a trigger key accept the
        trimmed text if it is non-empty and valid. */
    method HandleKeyDown(key: string)
      modifies this
      ensures Snapshot() == Step(old(Snapshot()), key)
      ensures old(Valid()) ==> Valid()
    {
      ghost var before := Snapshot();
      ghost var cleared := before.(errorHidden := true, inputHasError := false);
      errorHidden := true;
      inputHasError := false;
      if key in TriggerKeys {
        var value := Trim(inputValue);
        if value != "" {
          var ok := Validate(value);
          if ok {
            inputValue := ResetValue;
            items := items + [value];
            assert Snapshot() == cleared.(items := before.items + [value], inputValue := ResetValue);
          } else {
            assert Snapshot() == cleared.(errorText := ValidationError(before.items, value).value,
                                          errorHidden := false, inputHasError := true);
          }
        } else {
          assert Snapshot() == cleared;
        }
      } else {
        assert Snapshot() == cleared;
      }
      assert Snapshot() == Step(before, key);
      if WellFormedList(before.items) {
        StepKeepsWellFormed(before, key);
      }
    }
  }

  // Properties of one key-down.

  /** Whatever the key, the error shown afterwards is the one this key-down
      produced: it is visible, with the field styled, only when a trigger key
      met a non-empty text that failed validation, and then it is that text's
      message; otherwise the paragraph text is as before. */
  lemma StepErrorIsFresh(v: View, key: string)
    ensures var w := Step(v, key);
      var value := Trim(v.inputValue);
      && w.inputHasError == !w.errorHidden
      && (!w.errorHidden <==>
            key in TriggerKeys && value != "" && ValidationError(v.items, value).Some?)
      && (!w.errorHidden ==> Some(w.errorText) == ValidationError(v.items, value))
      && (w.errorHidden ==> w.errorText == v.errorText)
  {
  }

  /** A key that is not a trigger changes neither the list nor the field and
      leaves the error hidden. */
  lemma NonTriggerKeyOnlyClears(v: View, key: string)
    requires key !in TriggerKeys
    ensures Step(v, key) == v.(errorHidden := true, inputHasError := false)
  {
  }

  /** A trigger key on a field holding only whitespace adds nothing and shows
      no error, and no validation message is written. */
  lemma BlankTextOnlyClears(v: View, key: string)
    requires key in TriggerKeys && AllWhitespace(v.inputValue)
    ensures Step(v, key) == v.(errorHidden := true, inputHasError := false)
  {
    TrimEmptyIffAllWhitespace(v.inputValue);
  }

  /** A trigger key on a text that validates appends the trimmed text at the
      end, resets the field to a single space and keeps every earlier entry. */
  lemma AcceptAppends(v: View, key: string)
    requires key in TriggerKeys
    requires Trim(v.inputValue) != "" && ValidationError(v.items, Trim(v.inputValue)) == None
    ensures var w := Step(v, key);
      && w.items == v.items + [Trim(v.inputValue)]
      && |w.items| == |v.items| + 1
      && (forall i | 0 <= i < |v.items| :: w.items[i] == v.items[i])
      && w.inputValue == " "
      && w.errorHidden && !w.inputHasError && w.errorText == v.errorText
  {
  }

  /** The list changes only by an accepted address; a rejected text leaves
      the list and the field as they were. */
  lemma RejectKeepsListAndField(v: View, key: string)
    requires key in TriggerKeys
    requires ValidationError(v.items, Trim(v.inputValue)).Some?
    ensures Step(v, key).items == v.items && Step(v, key).inputValue == v.inputValue
  {
  }

  /** `validate` fails exactly when the address is a duplicate or malformed. */
  lemma ValidationFailsIff(items: seq<string>, email: string)
    ensures ValidationError(items, email).Some? <==> email in items || !IsEmail(email)
  {
  }

  /** When both checks fail the format message is the one reported; the
      duplicate message is reported only for a well-formed duplicate. */
  lemma FormatMessageWins(items: seq<string>, email: string)
    ensures email in items && !IsEmail(email) ==>
              ValidationError(items, email) == Some(InvalidMessage(email))
    ensures ValidationError(items, email) == Some(DuplicateMessage(email)) <==>
              email in items && IsEmail(email)
  {
    assert |InvalidMessage(email)| != |DuplicateMessage(email)|;
  }

  /** In a list the component keeps, a malformed text is never a duplicate,
      so the overwriting of the duplicate message is never observable from a
      state the element can reach. */
  lemma MalformedNeverListed(items: seq<string>, email: string)
    requires WellFormedList(items) && !IsEmail(email)
    ensures email !in items
  {
  }

  /** A key-down keeps the list free of duplicates and of malformed entries. */
  lemma StepKeepsWellFormed(v: View, key: string)
    requires WellFormedList(v.items)
    ensures WellFormedList(Step(v, key).items)
  {
    var value := Trim(v.inputValue);
    if key in TriggerKeys && value != "" && ValidationError(v.items, value) == None {
      AppendKeepsWellFormed(v.items, value);
    }
  }

  /** Appending a well-formed address that is not yet listed keeps the list
      well formed. */
  lemma AppendKeepsWellFormed(items: seq<string>, email: string)
    requires WellFormedList(items) && email !in items && IsEmail(email)
    ensures WellFormedList(items + [email])
  {
    var next := items + [email];
    forall i, j | 0 <= i < j < |next| ensures next[i] != next[j] {
      assert next[i] == items[i];
    }
    forall i | 0 <= i < |next| ensures IsEmail(next[i]) {
      if i < |items| {
        assert next[i] == items[i];
      }
    }
  }

  /** A key-down adds at most one address, the trimmed field text. */
  lemma StepAddsTrimmedText(v: View, key: string)
    ensures var w := Step(v, key);
      w.items == v.items || w.items == v.items + [Trim(v.inputValue)]
  {
  }

  // Properties of a whole session.

  /** A session split in two runs as its first part followed by its second. */
  lemma {:induction false} RunSplits(v: View, first: seq<KeyPress>, second: seq<KeyPress>)
    ensures Run(v, first + second) == Run(Run(v, first), second)
    decreases |first|
  {
    if first != [] {
      var p := first[0];
      assert (first + second)[1..] == first[1..] + second;
      RunSplits(Step(v.(inputValue := p.fieldText), p.key), first[1..], second);
    } else {
      assert first + second == second;
    }
  }

  /** However many keys are pressed and whatever is typed, the list stays
      free of duplicates and of malformed entries. */
  lemma {:induction false} RunKeepsWellFormed(v: View, presses: seq<KeyPress>)
    requires WellFormedList(v.items)
    ensures WellFormedList(Run(v, presses).items)
    decreases |presses|
  {
    if presses != [] {
      var p := presses[0];
      StepKeepsWellFormed(v.(inputValue := p.fieldText), p.key);
      RunKeepsWellFormed(Step(v.(inputValue := p.fieldText), p.key), presses[1..]);
    }
  }

  /** A session only ever appends: the earlier list is a prefix of the later
      one, so acceptance order is kept and nothing is removed. */
  lemma {:induction false} RunOnlyAppends(v: View, presses: seq<KeyPress>)
    ensures |v.items| <= |Run(v, presses).items|
    ensures Run(v, presses).items[..|v.items|] == v.items
    decreases |presses|
  {
    if presses != [] {
      var p := presses[0];
      var w := Step(v.(inputValue := p.fieldText), p.key);
      RunOnlyAppends(w, presses[1..]);
      assert w.items[..|v.items|] == v.items;
      assert Run(v, presses).items[..|w.items|][..|v.items|] == Run(v, presses).items[..|v.items|];
    }
  }

  /** Every address a session adds is the trimmed text of one of its key
      presses. */
  lemma {:induction false} RunAddsTrimmedTexts(v: View, presses: seq<KeyPress>, k: int)
    requires |v.items| <= k < |Run(v, presses).items|
    ensures exists n :: 0 <= n < |presses| && Run(v, presses).items[k] == Trim(presses[n].fieldText)
    decreases |presses|
  {
    var p := presses[0];
    var w := Step(v.(inputValue := p.fieldText), p.key);
    assert Run(v, presses) == Run(w, presses[1..]);
    RunOnlyAppends(w, presses[1..]);
    if k < |w.items| {
      StepAddsTrimmedText(v.(inputValue := p.fieldText), p.key);
      assert w.items[k] == Trim(p.fieldText);
      assert Run(v, presses).items[k] == Run(v, presses).items[..|w.items|][k];
    } else {
      RunAddsTrimmedTexts(w, presses[1..], k);
      var n :| 0 <= n < |presses[1..]| && Run(w, presses[1..]).items[k] == Trim(presses[1..][n].fieldText);
      assert presses[1..][n] == presses[n + 1];
    }
  }
}
