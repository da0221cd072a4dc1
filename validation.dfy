/** The request-body validators: ordered guards, each answering 400 with its own message at the
    first check that fails, and calling `next` only when every check passes. */
module Validation {
  import opened Http
  import opened Js
  import opened Wrappers

  /** A character the class `[^\s@]` accepts. */
  predicate Plain(c: char) {
    !IsWhitespace(c) && c != '@'
  }

  ghost predicate AllPlain(s: string) {
    forall k :: 0 <= k < |s| ==> Plain(s[k])
  }

  /** What `/^[^\s@]+@[^\s@]+\.[^\s@]+$/` describes: three non-empty runs of plain characters,
      the first two ended by "@" and "." respectively. */
  ghost predicate MatchesEmailPattern(s: string) {
    exists a: string, b: string, c: string :: |a| > 0 && |b| > 0 && |c| > 0 &&
      AllPlain(a) && AllPlain(b) && AllPlain(c) && s == a + "@" + b + "." + c
  }

  /** `isValidEmail`, by positions: one "@" that is not first, a "." after at least one
      character following it and before the last, and every other character plain. */
  predicate IsValidEmail(s: string)
    ensures IsValidEmail(s) ==> 5 <= |s| && s[0] != '@' && forall k :: 0 <= k < |s| ==> !IsWhitespace(s[k])
  {
    exists i, j :: 0 < i < |s| && i + 1 < j < |s| - 1 && s[i] == '@' && s[j] == '.' &&
      forall k :: 0 <= k < |s| && k != i ==> Plain(s[k])
  }

  /** Cutting at the "@" and the "." gives the three runs of the pattern. */
  lemma {:induction false} PositionsGivePattern(s: string, i: int, j: int)
    requires 0 < i < |s| && i + 1 < j < |s| - 1 && s[i] == '@' && s[j] == '.'
    requires forall k :: 0 <= k < |s| && k != i ==> Plain(s[k])
    ensures MatchesEmailPattern(s)
  {
    var a, b, c := s[..i], s[i + 1..j], s[j + 1..];
    assert s[j..] == "." + c;
    assert s[i + 1..] == b + s[j..];
    assert s[i..] == "@" + s[i + 1..];
    assert s == a + s[i..];
    assert AllPlain(a) by {
      forall k | 0 <= k < |a| ensures Plain(a[k]) { assert a[k] == s[k]; }
    }
    assert AllPlain(b) by {
      forall k | 0 <= k < |b| ensures Plain(b[k]) { assert b[k] == s[i + 1 + k]; }
    }
    assert AllPlain(c) by {
      forall k | 0 <= k < |c| ensures Plain(c[k]) { assert c[k] == s[j + 1 + k]; }
    }
    assert s == a + "@" + b + "." + c;
  }

  /** Three runs joined by "@" and "." put the "@" and the "." where the positional test wants them. */
  lemma {:induction false} PatternGivesPositions(a: string, b: string, c: string)
    requires |a| > 0 && |b| > 0 && |c| > 0 && AllPlain(a) && AllPlain(b) && AllPlain(c)
    ensures IsValidEmail(a + "@" + b + "." + c)
  {
    var s := a + "@" + b + "." + c;
    var i, j := |a|, |a| + 1 + |b|;
    assert s[i] == '@' && s[j] == '.';
    forall k | 0 <= k < |s| && k != i
      ensures Plain(s[k])
    {
      if k < i {
        assert s[k] == a[k];
      } else if k < j {
        assert s[k] == b[k - i - 1];
      } else if k > j {
        assert s[k] == c[k - j - 1];
      }
    }
  }

  /** The positional test accepts exactly the strings the regular expression matches. */
  lemma IsValidEmailMatchesPattern(s: string)
    ensures IsValidEmail(s) <==> MatchesEmailPattern(s)
  {
    if IsValidEmail(s) {
      var i, j :| 0 < i < |s| && i + 1 < j < |s| - 1 && s[i] == '@' && s[j] == '.' &&
        forall k :: 0 <= k < |s| && k != i ==> Plain(s[k]);
      PositionsGivePattern(s, i, j);
    }
    if MatchesEmailPattern(s) {
      var a: string, b: string, c: string :| |a| > 0 && |b| > 0 && |c| > 0 &&
        AllPlain(a) && AllPlain(b) && AllPlain(c) && s == a + "@" + b + "." + c;
      PatternGivesPositions(a, b, c);
    }
  }

  /** The regular expression's `test` on a body field. A non-string field is converted to text
      first; a number or boolean never contains "@", and an array or object is taken as not
      matching. */
  predicate EmailField(v: Value)
    ensures EmailField(v) <==> v.Str? && MatchesEmailPattern(v.s)
    ensures EmailField(v) ==> Truthy(v)
  {
    if v.Str? then
      IsValidEmailMatchesPattern(v.s);
      IsValidEmail(v.s)
    else false
  }

  /** `password.length >= 6` on a body field: a string of at least 6 UTF-16 code units, an
      array of at least 6 elements, or an object whose `length` is a number of at least 6. Other
      values have no `length`, and `undefined >= 6` is false. */
  predicate PasswordField(v: Value)
    ensures PasswordField(v) ==> Truthy(v)
    ensures v.Str? && (forall i :: 0 <= i < |v.s| ==> v.s[i] <= '\U{FFFF}') ==> (PasswordField(v) <==> |v.s| >= 6)
  {
    match v
    case Str(s) => Utf16Length(s) >= 6
    case Arr(n) => n >= 6
    case Obj(length) => length.Some? && length.value >= 6.0
    case _ => false
  }

  /** `validateRegistration`. */
  function ValidateRegistration(email: Value, password: Value): (v: Verdict)
    ensures v == Next <==> Truthy(email) && EmailField(email) && Truthy(password) && PasswordField(password)
    ensures !Truthy(email) ==> v == Reject(400, "Email is required")
    ensures Truthy(email) && !EmailField(email) ==> v == Reject(400, "Invalid email format")
    ensures Truthy(email) && EmailField(email) && !Truthy(password) ==> v == Reject(400, "Password is required")
    ensures Truthy(email) && EmailField(email) && Truthy(password) && !PasswordField(password) ==>
      v == Reject(400, "Password must be at least 6 characters")
  {
    if !Truthy(email) then Reject(400, "Email is required")
    else if !EmailField(email) then Reject(400, "Invalid email format")
    else if !Truthy(password) then Reject(400, "Password is required")
    else if !PasswordField(password) then Reject(400, "Password must be at least 6 characters")
    else Next
  }

  /** A registration passes exactly when the email matches the regular expression and the
      password has at least six code units. */
  lemma RegistrationAccepts(email: string, password: string)
    ensures ValidateRegistration(Str(email), Str(password)) == Next <==>
      MatchesEmailPattern(email) && Utf16Length(password) >= 6
  {
    IsValidEmailMatchesPattern(email);
  }

  /** The length test does not look at the type: six array elements pass as a password. */
  lemma {:induction false} RegistrationAcceptsArrayPassword()
    ensures ValidateRegistration(Str("a@b.c"), Arr(6)) == Next
  {
    var s := "a@b.c";
    assert s[1] == '@' && s[3] == '.';
    assert forall k :: 0 <= k < |s| && k != 1 ==> Plain(s[k]);
    assert IsValidEmail(s);
  }

  /** The name test shared by businesses and services: a truthy string that is not empty
      once trimmed. */
  predicate NamePresent(v: Value) {
    Truthy(v) && v.Str? && |Trim(v.s)| > 0
  }

  /** The trimmed test is the same as asking for one character that is not white space. */
  lemma NamePresentIffNotBlank(v: Value)
    ensures NamePresent(v) <==> v.Str? && !Blank(v.s)
  {
    if v.Str? {
      TrimEmptyIffBlank(v.s);
    }
  }

  /** `validateBusiness`: the name length limit is tested on the untrimmed name. */
  function ValidateBusiness(name: Value): (v: Verdict)
    ensures v == Next <==> name.Str? && !Blank(name.s) && Utf16Length(name.s) <= 255
    ensures name.Str? ==> (v == Reject(400, "Business name is required") <==> Blank(name.s))
    ensures !name.Str? ==> v == Reject(400, "Business name is required")
    ensures name.Str? && !Blank(name.s) && Utf16Length(name.s) > 255 ==> v == Reject(400, "Business name too long")
  {
    NamePresentIffNotBlank(name);
    if !NamePresent(name) then Reject(400, "Business name is required")
    else if Utf16Length(name.s) > 255 then Reject(400, "Business name too long")
    else Next
  }

  /** `!x || !Number.isInteger(x)`, negated: a non-zero integer, negative ones included. */
  predicate IdField(v: Value) {
    Truthy(v) && IsInteger(v)
  }

  /** `validateService`. */
  function ValidateService(businessId: Value, name: Value, durationMinutes: Value): (v: Verdict)
    ensures v == Next <==>
      && businessId.Num? && businessId.x != 0.0 && businessId.x.Floor as real == businessId.x
      && name.Str? && !Blank(name.s)
      && durationMinutes.Num? && durationMinutes.x > 0.0 && durationMinutes.x.Floor as real == durationMinutes.x
    ensures !IdField(businessId) ==> v == Reject(400, "Valid business_id is required")
    ensures IdField(businessId) && !NamePresent(name) ==> v == Reject(400, "Service name is required")
    ensures IdField(businessId) && NamePresent(name) && v != Next ==> v == Reject(400, "Valid duration_minutes is required")
  {
    NamePresentIffNotBlank(name);
    if !IdField(businessId) then Reject(400, "Valid business_id is required")
    else if !NamePresent(name) then Reject(400, "Service name is required")
    else if !Truthy(durationMinutes) || !IsInteger(durationMinutes) || durationMinutes.x <= 0.0 then
      Reject(400, "Valid duration_minutes is required")
    else Next
  }

  /** `validateSlot`. `parse` stands for `new Date(v).getTime()`, None being NaN. */
  function ValidateSlot(serviceId: Value, startTime: Value, endTime: Value, parse: Value -> Option<int>): (v: Verdict)
    ensures v == Next <==>
      && IdField(serviceId) && Truthy(startTime) && Truthy(endTime)
      && parse(startTime).Some? && parse(endTime).Some? && parse(endTime).value > parse(startTime).value
    ensures !IdField(serviceId) ==> v == Reject(400, "Valid service_id is required")
    ensures IdField(serviceId) && !Truthy(startTime) ==> v == Reject(400, "start_time is required")
    ensures IdField(serviceId) && Truthy(startTime) && !Truthy(endTime) ==> v == Reject(400, "end_time is required")
    ensures IdField(serviceId) && Truthy(startTime) && Truthy(endTime) && parse(startTime).None? ==>
      v == Reject(400, "Invalid start_time format")
    ensures IdField(serviceId) && Truthy(startTime) && Truthy(endTime) && parse(startTime).Some? && parse(endTime).None? ==>
      v == Reject(400, "Invalid end_time format")
    ensures (&& IdField(serviceId) && Truthy(startTime) && Truthy(endTime) && parse(startTime).Some? && parse(endTime).Some?
             && parse(endTime).value <= parse(startTime).value) ==> v == Reject(400, "end_time must be after start_time")
  {
    if !IdField(serviceId) then Reject(400, "Valid service_id is required")
    else if !Truthy(startTime) then Reject(400, "start_time is required")
    else if !Truthy(endTime) then Reject(400, "end_time is required")
    else
      var start := parse(startTime);
      var end := parse(endTime);
      if start.None? then Reject(400, "Invalid start_time format")
      else if end.None? then Reject(400, "Invalid end_time format")
      else if end.value <= start.value then Reject(400, "end_time must be after start_time")
      else Next
  }

  /** A slot whose start and end parse to the same instant is rejected. */
  lemma EmptySlotRejected(serviceId: Value, startTime: Value, endTime: Value, parse: Value -> Option<int>)
    requires IdField(serviceId) && Truthy(startTime) && Truthy(endTime)
    requires parse(startTime).Some? && parse(startTime) == parse(endTime)
    ensures ValidateSlot(serviceId, startTime, endTime, parse) == Reject(400, "end_time must be after start_time")
  {
  }

  /** `validateReservation`: slot_id must be a non-zero integer, so 0 is rejected. */
  function ValidateReservation(slotId: Value): (v: Verdict)
    ensures v == Next <==> slotId.Num? && slotId.x != 0.0 && slotId.x.Floor as real == slotId.x
    ensures v != Next ==> v == Reject(400, "Valid slot_id is required")
  {
    if !IdField(slotId) then Reject(400, "Valid slot_id is required") else Next
  }
}
