/** The administrator signup form: each field's validator list, run the way
    WTForms runs a validator chain, and the closed-form acceptance rule each
    field ends up with. */
module Forms {
  import opened Text

  /** The validators the form uses, plus its inline `validate_<field>`
      methods (`NotRegistered`), which WTForms runs after a field's own list. */
  datatype Validator =
    | DataRequired
    | InputRequired
    | Length(min: nat, max: nat)
    | Optional
    | AliasPattern
    | EmailFormat
    | EqualToPassword2
    | NotRegistered(registry: Registry)

  datatype Registry = Usernames | Emails | Phones

  /** What a validator does with a field: nothing, raise ValidationError
      (one message, the chain goes on), or raise StopValidation, which first
      clears the field's messages and ends the chain, with a message
      (DataRequired, InputRequired) or without (Optional). */
  datatype Verdict = Pass | Fail | StopWithMessage | StopSilently

  /** The submitted text of every field; a field that is absent behaves as
      the empty string for all the validators used here. */
  datatype AdminForm = AdminForm(
    fullName: string,
    address: string,
    username: string,
    email: string,
    nationality: string,
    displayName: string,
    phoneNumber: string,
    password: string,
    password2: string)

  /** What validation reads besides the form: the three deduplication sets
      and the Email() format check, which is not part of this model. */
  datatype Context = Context(usernames: set<string>, emails: set<string>, phones: set<string>,
                             emailFormat: string -> bool)

  predicate IsAliasStart(c: char) { 'a' <= c <= 'z' || 'A' <= c <= 'Z' || c == '_' }

  predicate IsAliasChar(c: char) { IsAliasStart(c) || IsDigit(c) }

  /** `[a-zA-Z_][A-Za-z0-9_]*` over the whole string. */
  predicate IsAlias(s: string)
  {
    |s| >= 1 && IsAliasStart(s[0]) && forall i :: 1 <= i < |s| ==> IsAliasChar(s[i])
  }

  /** `re.match('^[a-zA-Z_][A-Za-z0-9_]*$', s)`: `$` also matches just before
      a final line feed. */
  predicate MatchesAliasPattern(s: string)
  {
    IsAlias(s) || (|s| >= 2 && s[|s| - 1] == '\n' && IsAlias(s[..|s| - 1]))
  }

  function Check(v: Validator, data: string, form: AdminForm, ctx: Context): Verdict
  {
    match v
    case DataRequired => if IsBlank(data) then StopWithMessage else Pass
    case InputRequired => if data == "" then StopWithMessage else Pass
    case Length(min, max) => if |data| < min || |data| > max then Fail else Pass
    case Optional => if IsBlank(data) then StopSilently else Pass
    case AliasPattern => if MatchesAliasPattern(data) then Pass else Fail
    case EmailFormat => if ctx.emailFormat(data) then Pass else Fail
    case EqualToPassword2 => if data == form.password2 then Pass else Fail
    case NotRegistered(Usernames) => if data in ctx.usernames then Fail else Pass
    case NotRegistered(Emails) => if data in ctx.emails then Fail else Pass
    case NotRegistered(Phones) => if data in ctx.phones then Fail else Pass
  }

  /** The messages a field ends with after running `chain` on it, given the
      messages it had before. */
  function RunChain(chain: seq<Validator>, errors: seq<Validator>, data: string, form: AdminForm, ctx: Context): (r: seq<Validator>)
    ensures |errors| + |chain| >= |r|
  {
    if chain == [] then errors
    else
      match Check(chain[0], data, form, ctx)
      case Pass => RunChain(chain[1..], errors, data, form, ctx)
      case Fail => RunChain(chain[1..], errors + [chain[0]], data, form, ctx)
      case StopWithMessage => [chain[0]]
      case StopSilently => []
  }

  /** `field.validate()`: the chain leaves no message. */
  predicate FieldValid(chain: seq<Validator>, data: string, form: AdminForm, ctx: Context)
  {
    RunChain(chain, [], data, form, ctx) == []
  }

  // The validator lists of AdminRequestForm, inline validators last.
  const FullNameChain: seq<Validator> := [DataRequired, InputRequired, Length(1, 24)]
  const AddressChain: seq<Validator> := [InputRequired, DataRequired, Length(10, 512)]
  const UsernameChain: seq<Validator> := [DataRequired, InputRequired, Length(5, 64), NotRegistered(Usernames)]
  const EmailChain: seq<Validator> := [DataRequired, EmailFormat, Length(5, 64), NotRegistered(Emails)]
  const NationalityChain: seq<Validator> := [InputRequired, DataRequired]
  const DisplayNameChain: seq<Validator> := [Length(1, 64), Optional, AliasPattern]
  const PhoneNumberChain: seq<Validator> := [DataRequired, Length(10, 20), NotRegistered(Phones)]
  const PasswordChain: seq<Validator> := [DataRequired, EqualToPassword2, Length(8, 96), InputRequired]
  const Password2Chain: seq<Validator> := [DataRequired]

  /** A Length check at the end of a chain leaves a message exactly when the
      length is out of bounds. */
  lemma LastLength(min: nat, max: nat, data: string, form: AdminForm, ctx: Context)
    ensures RunChain([Length(min, max)], [], data, form, ctx) == [] <==> min <= |data| <= max
  {
    if |data| < min || |data| > max {
      assert RunChain([Length(min, max)], [], data, form, ctx) == RunChain([], [Length(min, max)], data, form, ctx);
    }
  }

  /** A check that does not stop, at the end of a chain, adds its message to
      those already there exactly when it fails. */
  lemma LastCheck(v: Validator, errors: seq<Validator>, data: string, form: AdminForm, ctx: Context)
    requires Check(v, data, form, ctx) in {Pass, Fail}
    ensures RunChain([v], errors, data, form, ctx) == if Check(v, data, form, ctx) == Fail then errors + [v] else errors
  {
    assert [v][1..] == [];
  }

  /** full_name: not blank, 1 to 24 characters. */
  lemma FullNameRule(form: AdminForm, ctx: Context)
    ensures FieldValid(FullNameChain, form.fullName, form, ctx) <==> !IsBlank(form.fullName) && 1 <= |form.fullName| <= 24
  {
    var s := form.fullName;
    if !IsBlank(s) {
      assert s != "";
      calc {
        RunChain(FullNameChain, [], s, form, ctx);
        RunChain([InputRequired, Length(1, 24)], [], s, form, ctx);
        RunChain([Length(1, 24)], [], s, form, ctx);
      }
      LastLength(1, 24, s, form, ctx);
    }
  }

  /** address: not blank, 10 to 512 characters. */
  lemma AddressRule(form: AdminForm, ctx: Context)
    ensures FieldValid(AddressChain, form.address, form, ctx) <==> !IsBlank(form.address) && 10 <= |form.address| <= 512
  {
    var s := form.address;
    if s == "" {
      assert IsBlank(s);
    } else {
      assert RunChain(AddressChain, [], s, form, ctx) == RunChain([DataRequired, Length(10, 512)], [], s, form, ctx);
      if !IsBlank(s) {
        assert RunChain([DataRequired, Length(10, 512)], [], s, form, ctx) == RunChain([Length(10, 512)], [], s, form, ctx);
        LastLength(10, 512, s, form, ctx);
      }
    }
  }

  /** username: not blank, 5 to 64 characters, not registered. */
  lemma UsernameRule(form: AdminForm, ctx: Context)
    ensures FieldValid(UsernameChain, form.username, form, ctx) <==>
              !IsBlank(form.username) && 5 <= |form.username| <= 64 && form.username !in ctx.usernames
  {
    var s := form.username;
    if !IsBlank(s) {
      assert s != "";
      var last := NotRegistered(Usernames);
      var afterLength: seq<Validator> := if |s| < 5 || |s| > 64 then [Length(5, 64)] else [];
      calc {
        RunChain(UsernameChain, [], s, form, ctx);
        RunChain([InputRequired, Length(5, 64), last], [], s, form, ctx);
        { assert [InputRequired, Length(5, 64), last][1..] == [Length(5, 64), last]; }
        RunChain([Length(5, 64), last], [], s, form, ctx);
        { assert [Length(5, 64), last][1..] == [last]; assert [] + [Length(5, 64)] == [Length(5, 64)]; }
        RunChain([last], afterLength, s, form, ctx);
      }
      LastCheck(last, afterLength, s, form, ctx);
    }
  }

  /** email: not blank, of email format, 5 to 64 characters, not registered. */
  lemma EmailRule(form: AdminForm, ctx: Context)
    ensures FieldValid(EmailChain, form.email, form, ctx) <==>
              !IsBlank(form.email) && ctx.emailFormat(form.email) && 5 <= |form.email| <= 64
              && form.email !in ctx.emails
  {
    var s := form.email;
    if !IsBlank(s) {
      var last := NotRegistered(Emails);
      var afterFormat: seq<Validator> := if ctx.emailFormat(s) then [] else [EmailFormat];
      var afterLength: seq<Validator> := afterFormat + (if |s| < 5 || |s| > 64 then [Length(5, 64)] else []);
      calc {
        RunChain(EmailChain, [], s, form, ctx);
        RunChain([EmailFormat, Length(5, 64), last], [], s, form, ctx);
        { assert [EmailFormat, Length(5, 64), last][1..] == [Length(5, 64), last];
          assert [] + [EmailFormat] == [EmailFormat]; }
        RunChain([Length(5, 64), last], afterFormat, s, form, ctx);
        { assert [Length(5, 64), last][1..] == [last]; assert afterFormat + [] == afterFormat; }
        RunChain([last], afterLength, s, form, ctx);
      }
      LastCheck(last, afterLength, s, form, ctx);
    }
  }

  /** nationality: present and not white space only. */
  lemma NationalityRule(form: AdminForm, ctx: Context)
    ensures FieldValid(NationalityChain, form.nationality, form, ctx) <==> !IsBlank(form.nationality)
  {
    var s := form.nationality;
    if s == "" {
      assert IsBlank(s);
    } else {
      assert RunChain(NationalityChain, [], s, form, ctx) == RunChain([DataRequired], [], s, form, ctx);
    }
  }

  /** display_name: blank (empty or white space only) is accepted; otherwise
      at most 64 characters matching the alias pattern. */
  lemma DisplayNameRule(form: AdminForm, ctx: Context)
    ensures FieldValid(DisplayNameChain, form.displayName, form, ctx) <==>
              IsBlank(form.displayName) || (|form.displayName| <= 64 && MatchesAliasPattern(form.displayName))
  {
    var s := form.displayName;
    var afterLength: seq<Validator> := if |s| < 1 || |s| > 64 then [Length(1, 64)] else [];
    assert [] + [Length(1, 64)] == [Length(1, 64)];
    assert RunChain(DisplayNameChain, [], s, form, ctx) == RunChain([Optional, AliasPattern], afterLength, s, form, ctx);
    if !IsBlank(s) {
      assert |s| >= 1;
      assert RunChain([Optional, AliasPattern], afterLength, s, form, ctx) == RunChain([AliasPattern], afterLength, s, form, ctx);
      LastCheck(AliasPattern, afterLength, s, form, ctx);
    }
  }

  /** phone_number: not blank, 10 to 20 characters, not registered. */
  lemma PhoneNumberRule(form: AdminForm, ctx: Context)
    ensures FieldValid(PhoneNumberChain, form.phoneNumber, form, ctx) <==>
              !IsBlank(form.phoneNumber) && 10 <= |form.phoneNumber| <= 20 && form.phoneNumber !in ctx.phones
  {
    var s := form.phoneNumber;
    if !IsBlank(s) {
      var last := NotRegistered(Phones);
      var afterLength: seq<Validator> := if |s| < 10 || |s| > 20 then [Length(10, 20)] else [];
      calc {
        RunChain(PhoneNumberChain, [], s, form, ctx);
        RunChain([Length(10, 20), last], [], s, form, ctx);
        { assert [Length(10, 20), last][1..] == [last]; assert [] + [Length(10, 20)] == [Length(10, 20)]; }
        RunChain([last], afterLength, s, form, ctx);
      }
      LastCheck(last, afterLength, s, form, ctx);
    }
  }

  /** password: not blank, equal to password2, 8 to 96 characters. */
  lemma PasswordRule(form: AdminForm, ctx: Context)
    ensures FieldValid(PasswordChain, form.password, form, ctx) <==>
              !IsBlank(form.password) && form.password == form.password2 && 8 <= |form.password| <= 96
  {
    var s := form.password;
    if !IsBlank(s) {
      assert s != "";
      var last := InputRequired;
      var afterEqual: seq<Validator> := if s == form.password2 then [] else [EqualToPassword2];
      var afterLength: seq<Validator> := afterEqual + (if |s| < 8 || |s| > 96 then [Length(8, 96)] else []);
      calc {
        RunChain(PasswordChain, [], s, form, ctx);
        RunChain([EqualToPassword2, Length(8, 96), last], [], s, form, ctx);
        { assert [EqualToPassword2, Length(8, 96), last][1..] == [Length(8, 96), last];
          assert [] + [EqualToPassword2] == [EqualToPassword2]; }
        RunChain([Length(8, 96), last], afterEqual, s, form, ctx);
        { assert [Length(8, 96), last][1..] == [last]; assert afterEqual + [] == afterEqual; }
        RunChain([last], afterLength, s, form, ctx);
      }
      LastCheck(last, afterLength, s, form, ctx);
    }
  }

  /** password2: not blank. */
  lemma Password2Rule(form: AdminForm, ctx: Context)
    ensures FieldValid(Password2Chain, form.password2, form, ctx) <==> !IsBlank(form.password2)
  {
  }

  /** `form.validate()`: every field valid. */
  predicate FormValid(form: AdminForm, ctx: Context)
  {
    && FieldValid(FullNameChain, form.fullName, form, ctx)
    && FieldValid(AddressChain, form.address, form, ctx)
    && FieldValid(UsernameChain, form.username, form, ctx)
    && FieldValid(EmailChain, form.email, form, ctx)
    && FieldValid(NationalityChain, form.nationality, form, ctx)
    && FieldValid(DisplayNameChain, form.displayName, form, ctx)
    && FieldValid(PhoneNumberChain, form.phoneNumber, form, ctx)
    && FieldValid(PasswordChain, form.password, form, ctx)
    && FieldValid(Password2Chain, form.password2, form, ctx)
  }

  /** The form's acceptance rule, field by field. */
  predicate Acceptable(form: AdminForm, ctx: Context)
  {
    && !IsBlank(form.fullName) && 1 <= |form.fullName| <= 24
    && !IsBlank(form.address) && 10 <= |form.address| <= 512
    && !IsBlank(form.username) && 5 <= |form.username| <= 64 && form.username !in ctx.usernames
    && !IsBlank(form.email) && ctx.emailFormat(form.email) && 5 <= |form.email| <= 64 && form.email !in ctx.emails
    && !IsBlank(form.nationality)
    && (IsBlank(form.displayName) || (|form.displayName| <= 64 && MatchesAliasPattern(form.displayName)))
    && !IsBlank(form.phoneNumber) && 10 <= |form.phoneNumber| <= 20 && form.phoneNumber !in ctx.phones
    && !IsBlank(form.password) && form.password == form.password2 && 8 <= |form.password| <= 96
    && !IsBlank(form.password2)
  }

  /** The validator chains accept exactly the forms the rule accepts. */
  lemma FormRule(form: AdminForm, ctx: Context)
    ensures FormValid(form, ctx) <==> Acceptable(form, ctx)
  {
    FullNameRule(form, ctx);
    AddressRule(form, ctx);
    UsernameRule(form, ctx);
    EmailRule(form, ctx);
    NationalityRule(form, ctx);
    DisplayNameRule(form, ctx);
    PhoneNumberRule(form, ctx);
    PasswordRule(form, ctx);
    Password2Rule(form, ctx);
  }

  /** The pattern's `$` lets a display name end in a line feed, and the
      blank check lets a display name of spaces through. */
  lemma DisplayNameLaxities(form: AdminForm, ctx: Context)
    ensures form.displayName == "bob\n" ==> FieldValid(DisplayNameChain, form.displayName, form, ctx)
    ensures form.displayName == "   " ==> FieldValid(DisplayNameChain, form.displayName, form, ctx)
    ensures form.displayName == "9lives" ==> !FieldValid(DisplayNameChain, form.displayName, form, ctx)
  {
    DisplayNameRule(form, ctx);
    if form.displayName == "bob\n" {
      assert form.displayName[..3] == "bob";
      assert IsAlias("bob");
    }
    if form.displayName == "9lives" {
      assert !IsAlias("9lives");
      assert !IsAlias("9lives"[..5]);
    }
  }
}
