/**
 * The list of destination addresses kept by the App component and the two
 * list computations its handlers perform: the checked append of `addEmail`
 * (App.js lines 113-136) and the `filter` of the confirmed delete (line 151).
 * Both are pure functions here; the `App` class applies them to its state.
 */
module EmailList {
  import opened EmailFormat

  predicate NoDuplicates<T(==)>(s: seq<T>) {
    forall i, j :: 0 <= i < j < |s| ==> s[i] != s[j]
  }

  /** The invariant of the list as `addEmail` builds it: every entry is an
      accepted address and no address is listed twice. */
  predicate WellFormed(list: seq<string>) {
    NoDuplicates(list) && forall k :: 0 <= k < |list| ==> ValidEmail(list[k])
  }

  // ---------------------------------------------------------------------
  // addEmail

  /** Which alert `addEmail` raises. */
  datatype AddOutcome =
    | EmptyInput     // "Please enter an email address"
    | InvalidFormat  // "Please enter a valid email address"
    | AlreadyListed  // "This email is already in the list"
    | Added          // "Email added successfully"

  /** The outcome of pressing Add, with the new list and the new text of the
      input box. */
  datatype AddStep = AddStep(outcome: AddOutcome, emails: seq<string>, input: string)

  /** `addEmail` on the list `emails` with `input` in the text box. The
      membership test is JavaScript's `includes`: exact, case-sensitive.
      Whatever the input, the old entries stay in place; only an accepted,
      valid address is added, at the end, and only then is the box
      cleared. */
  function Add(emails: seq<string>, input: string): (r: AddStep)
    ensures |r.emails| == |emails| + (if r.outcome == Added then 1 else 0)
    ensures r.emails[..|emails|] == emails
    ensures r.outcome != Added ==> r.emails == emails && r.input == input
    ensures r.outcome == Added ==> r.input == "" && ValidEmail(r.emails[|emails|])
  {
    var trimmed := Trim(input);
    if trimmed == "" then AddStep(EmptyInput, emails, input)
    else if !ValidEmail(trimmed) then AddStep(InvalidFormat, emails, input)
    else if trimmed in emails then AddStep(AlreadyListed, emails, input)
    else AddStep(Added, emails + [trimmed], "")
  }

  /** Input that is blank (only white space, or nothing) is refused and
      changes nothing. */
  lemma AddRejectsBlank(emails: seq<string>, input: string)
    ensures AllSpace(input) <==> Add(emails, input).outcome == EmptyInput
    ensures AllSpace(input) ==> Add(emails, input) == AddStep(EmptyInput, emails, input)
  {
    TrimEmptyIffBlank(input);
  }

  /** Input that is not blank but whose trimmed form fails `validateEmail` is
      refused and changes nothing. */
  lemma AddRejectsMalformed(emails: seq<string>, input: string)
    ensures (!AllSpace(input) && !ValidEmail(Trim(input)))
            <==> Add(emails, input).outcome == InvalidFormat
    ensures Add(emails, input).outcome == InvalidFormat
            ==> Add(emails, input) == AddStep(InvalidFormat, emails, input)
  {
    TrimEmptyIffBlank(input);
  }

  /** A well-formed address that is already listed, exactly as typed after
      trimming, is refused and changes nothing. */
  lemma AddRejectsListed(emails: seq<string>, input: string)
    ensures (ValidEmail(Trim(input)) && Trim(input) in emails)
            <==> Add(emails, input).outcome == AlreadyListed
    ensures Add(emails, input).outcome == AlreadyListed
            ==> Add(emails, input) == AddStep(AlreadyListed, emails, input)
  {
  }

  /** On success the trimmed address is appended at the end, everything that
      was there stays where it was, and the input box is cleared. */
  lemma AddAppends(emails: seq<string>, input: string)
    ensures Add(emails, input).outcome == Added
            <==> (!AllSpace(input) && ValidEmail(Trim(input)) && Trim(input) !in emails)
    ensures Add(emails, input).outcome == Added ==>
              var r := Add(emails, input).emails;
              && |r| == |emails| + 1
              && r[..|emails|] == emails
              && r[|emails|] == Trim(input)
              && Add(emails, input).input == ""
  {
    TrimEmptyIffBlank(input);
  }

  /** Whatever `addEmail` inserts is trimmed and passes `validateEmail`. */
  lemma AddedEntryIsClean(emails: seq<string>, input: string)
    requires Add(emails, input).outcome == Added
    ensures var e := Add(emails, input).emails[|emails|]; ValidEmail(e) && Trim(e) == e
  {
    var t := Trim(input);
    assert Add(emails, input).emails == emails + [t];
    ValidEmailIsTrimmed(t);
  }

  /** `addEmail` keeps the list free of duplicates and of rejected entries. */
  lemma AddPreservesWellFormed(emails: seq<string>, input: string)
    requires WellFormed(emails)
    ensures WellFormed(Add(emails, input).emails)
  {
    var t := Trim(input);
    if Add(emails, input).outcome == Added {
      assert Add(emails, input).emails == emails + [t];
      AppendKeepsWellFormed(emails, t);
    }
  }

  /** Appending a valid address that is not listed keeps a list well formed. */
  lemma AppendKeepsWellFormed(emails: seq<string>, address: string)
    requires WellFormed(emails) && ValidEmail(address) && address !in emails
    ensures WellFormed(emails + [address])
  {
    var r := emails + [address];
    forall i, j | 0 <= i < j < |r| ensures r[i] != r[j] {
      if j == |emails| {
        assert r[i] == emails[i];
      }
    }
  }

  /** White space around the input does not matter. */
  lemma AddIgnoresPadding(emails: seq<string>, input: string)
    ensures Add(emails, input).outcome == Add(emails, Trim(input)).outcome
    ensures Add(emails, input).emails == Add(emails, Trim(input)).emails
  {
    TrimIdempotent(input);
    SameTrimSameAdd(emails, input, Trim(input));
  }

  /** `Add` looks at the input only through its trim. */
  lemma SameTrimSameAdd(emails: seq<string>, a: string, b: string)
    requires Trim(a) == Trim(b)
    ensures Add(emails, a).outcome == Add(emails, b).outcome
    ensures Add(emails, a).emails == Add(emails, b).emails
  {
    var t := Trim(a);
    if t == "" {
      assert Add(emails, b) == AddStep(EmptyInput, emails, b);
    } else if !ValidEmail(t) {
      assert Add(emails, b) == AddStep(InvalidFormat, emails, b);
    } else if t in emails {
      assert Add(emails, b) == AddStep(AlreadyListed, emails, b);
    } else {
      assert Add(emails, b) == AddStep(Added, emails + [t], "");
    }
  }

  /** Typing the same address again after it was added is refused as a
      duplicate (the same spelling never appears twice). */
  lemma AddTwiceRefused(emails: seq<string>, input: string)
    requires Add(emails, input).outcome == Added
    ensures Add(Add(emails, input).emails, input).outcome == AlreadyListed
  {
    assert Trim(input) in Add(emails, input).emails;
  }

  /** A well-formed address that is not yet listed is accepted, whatever the
      list holds. */
  lemma AddAcceptsNew(emails: seq<string>, address: string)
    requires ValidEmail(address) && address !in emails
    ensures Add(emails, address) == AddStep(Added, emails + [address], "")
  {
    ValidEmailIsTrimmed(address);
  }

  /** The component's test "allows adding a valid email": a first valid
      address, `test@example.com`, is stored on its own. */
  lemma AddExampleValid()
    ensures Add([], "test@example.com") == AddStep(Added, ["test@example.com"], "")
  {
    ValidEmailExample();
    AddAcceptsNew([], "test@example.com");
    assert [] + ["test@example.com"] == ["test@example.com"];
  }

  /** The component's test "validates email format": `invalid-email` is
      refused and nothing is stored. */
  lemma AddExampleInvalid(emails: seq<string>)
    ensures Add(emails, "invalid-email") == AddStep(InvalidFormat, emails, "invalid-email")
  {
    InvalidEmailExample();
    TrimKeepsUnpadded("invalid-email");
  }

  // ---------------------------------------------------------------------
  // deleteEmail, confirmed branch

  /** `s.filter(e => e !== x)`: every occurrence of `x` removed, the other
      entries kept with their multiplicities. */
  function Without<T(==)>(s: seq<T>, x: T): (r: seq<T>)
    ensures multiset(r) == multiset(s)[x := 0]
  {
    if s == [] then []
    else
      assert s == [s[0]] + s[1..];
      (if s[0] == x then [] else [s[0]]) + Without(s[1..], x)
  }

  /** Filtering works piece by piece, so the entries that stay keep their
      relative order. */
  lemma {:induction false} WithoutAppend<T>(a: seq<T>, b: seq<T>, x: T)
    ensures Without(a + b, x) == Without(a, x) + Without(b, x)
  {
    if a == [] {
      assert a + b == b;
    } else {
      assert (a + b)[1..] == a[1..] + b;
      WithoutAppend(a[1..], b, x);
    }
  }

  /** Deleting an address that is not listed leaves the list as it was. */
  lemma {:induction false} WithoutAbsent<T>(s: seq<T>, x: T)
    requires x !in s
    ensures Without(s, x) == s
  {
    if s != [] {
      WithoutAbsent(s[1..], x);
    }
  }

  /** Deleting keeps the list free of duplicates and of rejected entries. */
  lemma WithoutPreservesWellFormed(s: seq<string>, x: string)
    requires WellFormed(s)
    ensures WellFormed(Without(s, x))
  {
    var r := Without(s, x);
    WithoutKeepsNoDuplicates(s, x);
    forall k | 0 <= k < |r| ensures ValidEmail(r[k]) {
      assert r[k] in multiset(r);
      assert r[k] in s;
    }
  }

  /** Filtering a list without duplicates leaves a list without duplicates. */
  lemma {:induction false} WithoutKeepsNoDuplicates<T>(s: seq<T>, x: T)
    requires NoDuplicates(s)
    ensures NoDuplicates(Without(s, x))
  {
    if s != [] {
      WithoutKeepsNoDuplicates(s[1..], x);
      var rest := Without(s[1..], x);
      if s[0] != x {
        assert s[0] !in s[1..];
        assert s[0] !in rest by {
          assert multiset(rest)[s[0]] == 0;
        }
        ConsKeepsNoDuplicates(s[0], rest);
      }
    }
  }

  lemma ConsKeepsNoDuplicates<T>(h: T, s: seq<T>)
    requires NoDuplicates(s) && h !in s
    ensures NoDuplicates([h] + s)
  {
    var r := [h] + s;
    forall i, j | 0 <= i < j < |r| ensures r[i] != r[j] {
      assert r[j] == s[j - 1];
      if i > 0 {
        assert r[i] == s[i - 1];
      }
    }
  }

  /** Deleting an address right after adding it gives back the old list. */
  lemma DeleteUndoesAdd(emails: seq<string>, input: string)
    requires Add(emails, input).outcome == Added
    ensures Without(Add(emails, input).emails, Trim(input)) == emails
  {
    var t := Trim(input);
    assert Add(emails, input).emails == emails + [t] && t !in emails;
    WithoutUndoesAppend(emails, t);
  }

  /** Filtering out an element just appended to a list that lacked it gives
      back the list. */
  lemma WithoutUndoesAppend<T>(s: seq<T>, x: T)
    requires x !in s
    ensures Without(s + [x], x) == s
  {
    WithoutAppend(s, [x], x);
    WithoutAbsent(s, x);
    assert Without([x], x) == [];
  }
}
