/**
 * The state of the App component (App.js lines 20-23) and the handlers that
 * change it. Each `useState` hook is a field; a call of its setter is an
 * assignment to that field. `saved` records, in order, every list the
 * component hands to `saveEmails`; the storage itself is not modelled.
 */
module SmsForwarderApp {
  import opened Wrappers
  import opened EmailFormat
  import opened EmailList
  import opened Sms

  class App {
    var emails: seq<string>
    var newEmail: string
    var smsCount: nat
    var saved: seq<seq<string>>

    /** The list holds only addresses `addEmail` accepted, each once. */
    ghost predicate Valid()
      reads this
    {
      WellFormed(emails)
    }

    /** The component as first rendered, before anything is loaded. */
    constructor ()
      ensures Valid()
      ensures emails == [] && newEmail == "" && smsCount == 0 && saved == []
    {
      emails := [];
      newEmail := "";
      smsCount := 0;
      saved := [];
    }

    /** The text input's `onChangeText`: the box now holds `text`. */
    method ChangeText(text: string)
      modifies this`newEmail
      ensures newEmail == text
    {
      newEmail := text;
    }

    /** `addEmail`: the Add button. A refusal changes nothing and saves
        nothing; an acceptance appends the trimmed address, saves the new
        list and clears the box. */
    method AddEmail() returns (outcome: AddOutcome)
      modifies this`emails, this`newEmail, this`saved
      ensures Add(old(emails), old(newEmail)) == AddStep(outcome, emails, newEmail)
      ensures outcome != Added ==> emails == old(emails) && newEmail == old(newEmail)
      ensures outcome == Added ==>
                emails == old(emails) + [Trim(old(newEmail))] && newEmail == ""
      ensures saved == if outcome == Added then old(saved) + [emails] else old(saved)
      ensures old(Valid()) ==> Valid()
    {
      if Valid() {
        AddPreservesWellFormed(emails, newEmail);
      }
      var trimmedEmail := Trim(newEmail);
      if trimmedEmail == "" {
        return EmptyInput;
      }
      if !ValidEmail(trimmedEmail) {
        return InvalidFormat;
      }
      if trimmedEmail in emails {
        return AlreadyListed;
      }
      var updatedEmails := emails + [trimmedEmail];
      emails := updatedEmails;
      saved := saved + [updatedEmails];
      newEmail := "";
      outcome := Added;
    }

    /** The Delete button of the confirmation dialog for `emailToDelete`:
        every entry equal to it is removed and the new list is saved, even
        when nothing was removed. */
    method DeleteEmail(emailToDelete: string)
      modifies this`emails, this`saved
      ensures emails == Without(old(emails), emailToDelete)
      ensures emailToDelete !in emails
      ensures emailToDelete !in old(emails) ==> emails == old(emails)
      ensures saved == old(saved) + [emails]
      ensures old(Valid()) ==> Valid()
    {
      if Valid() {
        WithoutPreservesWellFormed(emails, emailToDelete);
      }
      if emailToDelete !in emails {
        WithoutAbsent(emails, emailToDelete);
      }
      var updatedEmails := Without(emails, emailToDelete);
      emails := updatedEmails;
      saved := saved + [updatedEmails];
    }

    /** `handleIncomingSms`: count the message and, when some address is
        listed, build the record that would be forwarded to the list. */
    method ReceiveSms(message: Message, timestamp: string) returns (forward: Option<Forward>)
      modifies this`smsCount
      ensures smsCount == old(smsCount) + 1
      ensures forward == Forwarding(emails, message, timestamp)
    {
      smsCount := smsCount + 1;
      if |emails| > 0 {
        var smsDetails := Details(
          OrElse(message.originatingAddress, "Unknown"),
          OrElse(message.body, ""),
          timestamp);
        forward := Some(Forward(emails, smsDetails));
      } else {
        forward := None;
      }
    }
  }

  /** The component's test "allows adding a valid email", as a client of
      the class: `test@example.com` is stored and the one-element list is
      saved. */
  method AddValidScenario(address: string)
    requires address == "test@example.com"
  {
    ValidEmailExample();
    AddAcceptsNew([], address);
    var app := new App();
    app.ChangeText(address);
    var outcome := app.AddEmail();
    assert outcome == Added && app.emails == [address];
    assert app.saved == [[address]] && app.newEmail == "";
  }
}
