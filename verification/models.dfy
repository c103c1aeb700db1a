/** The Poll aggregate of InstaPoll: its records and the first-failure-wins
    validator `Poll.Validate`. */
module Models {

  /** A Go string is a sequence of bytes; `len` counts bytes, not characters. */
  newtype byte = b: int | 0 <= b < 256
  type Bytes = seq<byte>

  /** Instants as Unix nanoseconds. */
  type Time = int

  /** Go's zero `time.Time` (January 1, year 1, UTC), the value an unset
      `ExpiresAt` holds after JSON decoding. */
  const ZeroTime: Time := -62135596800 * 1000000000

  predicate IsZero(t: Time) { t == ZeroTime }

  /** `t.Before(u)` is strict. */
  predicate Before(t: Time, u: Time) { t < u }

  /** One selectable choice within a poll. */
  datatype Option = Option(id: string, text: Bytes, voteCount: int)

  /** The root record. */
  datatype Poll = Poll(
    id: string,
    title: Bytes,
    description: Bytes,
    options: seq<Option>,
    createdAt: Time,
    updatedAt: Time,
    expiresAt: Time)

  /** The string-typed validation error and its `Error()` method. */
  datatype ErrInvalidPoll = ErrInvalidPoll(msg: string) {
    function Error(): (s: string)
      ensures ErrInvalidPoll(s) == this
    {
      msg
    }
  }

  /** What `Validate` returns: nil, or an `ErrInvalidPoll`. */
  datatype Outcome = Pass | Fail(err: ErrInvalidPoll)

  const MaxTitleLength := 200
  const MaxDescriptionLength := 1000
  const MinOptions := 2
  const MaxOptions := 10
  const MaxOptionTextLength := 200

  const MsgTitleRequired := "title is required"
  const MsgTitleTooLong := "title must be less than 200 characters"
  const MsgDescriptionTooLong := "description must be less than 1000 characters"
  const MsgTooFewOptions := "poll must have at least 2 options"
  const MsgTooManyOptions := "poll cannot have more than 10 options"
  const MsgOptionTextEmpty := "option text cannot be empty"
  const MsgOptionTextTooLong := "option text must be less than 200 characters"
  const MsgExpired := "expiration date must be in the future"

  // ---------------------------------------------------------------------------
  // Reference definition: the invariants, and each individual check
  // ---------------------------------------------------------------------------

  ghost predicate OptionTextOk(o: Option) {
    1 <= |o.text| <= MaxOptionTextLength
  }

  /** The five invariants a poll must satisfy at instant `now`. */
  ghost predicate Invariants(p: Poll, now: Time) {
    && 1 <= |p.title| <= MaxTitleLength
    && |p.description| <= MaxDescriptionLength
    && MinOptions <= |p.options| <= MaxOptions
    && (forall i :: 0 <= i < |p.options| ==> OptionTextOk(p.options[i]))
    && (IsZero(p.expiresAt) || !Before(p.expiresAt, now))
  }

  /** The individual checks, one constructor per early return. */
  datatype Check =
    | TitleEmpty
    | TitleTooLong
    | DescriptionTooLong
    | TooFewOptions
    | TooManyOptions
    | OptionTextEmpty(index: nat)
    | OptionTextTooLong(index: nat)
    | Expired

  /** Whether check `c`, taken on its own, finds a violation in `p`. */
  ghost predicate Fails(p: Poll, now: Time, c: Check) {
    match c
    case TitleEmpty => |p.title| == 0
    case TitleTooLong => |p.title| > MaxTitleLength
    case DescriptionTooLong => |p.description| > MaxDescriptionLength
    case TooFewOptions => |p.options| < MinOptions
    case TooManyOptions => |p.options| > MaxOptions
    case OptionTextEmpty(i) => i < |p.options| && |p.options[i].text| == 0
    case OptionTextTooLong(i) => i < |p.options| && |p.options[i].text| > MaxOptionTextLength
    case Expired => !IsZero(p.expiresAt) && Before(p.expiresAt, now)
  }

  /** The position of a check in the fixed check order of a poll with `n`
      options: title, description, option count, then every option in
      sequence order (emptiness before length), then expiry. */
  ghost function Rank(n: nat, c: Check): nat {
    match c
    case TitleEmpty => 0
    case TitleTooLong => 1
    case DescriptionTooLong => 2
    case TooFewOptions => 3
    case TooManyOptions => 4
    case OptionTextEmpty(i) => 5 + 2 * i
    case OptionTextTooLong(i) => 6 + 2 * i
    case Expired => 5 + 2 * n
  }

  /** The message a failing check reports. */
  ghost function Message(c: Check): string {
    match c
    case TitleEmpty => MsgTitleRequired
    case TitleTooLong => MsgTitleTooLong
    case DescriptionTooLong => MsgDescriptionTooLong
    case TooFewOptions => MsgTooFewOptions
    case TooManyOptions => MsgTooManyOptions
    case OptionTextEmpty(_) => MsgOptionTextEmpty
    case OptionTextTooLong(_) => MsgOptionTextTooLong
    case Expired => MsgExpired
  }

  /** The error one offending option reports. */
  ghost function OptionError(o: Option): ErrInvalidPoll {
    if |o.text| == 0 then ErrInvalidPoll(MsgOptionTextEmpty) else ErrInvalidPoll(MsgOptionTextTooLong)
  }

  // ---------------------------------------------------------------------------
  // The validator
  // ---------------------------------------------------------------------------

  /** The option loop of `Validate`: the first offending option, in sequence
      order, decides the error. */
  function ValidateOptions(options: seq<Option>): (r: Outcome)
    ensures r.Pass? <==> forall i :: 0 <= i < |options| ==> OptionTextOk(options[i])
    ensures r.Fail? ==>
      exists i :: 0 <= i < |options| && !OptionTextOk(options[i])
        && (forall j :: 0 <= j < i ==> OptionTextOk(options[j]))
        && r.err == OptionError(options[i])
  {
    if options == [] then Pass
    else if |options[0].text| == 0 then Fail(ErrInvalidPoll(MsgOptionTextEmpty))
    else if |options[0].text| > MaxOptionTextLength then Fail(ErrInvalidPoll(MsgOptionTextTooLong))
    else
      var rest := ValidateOptions(options[1..]);
      assert forall i :: 1 <= i < |options| ==> options[i] == options[1..][i - 1];
      rest
  }

  /** `Poll.Validate`, with the instant its clock read returns as `now`. */
  function Validate(p: Poll, now: Time): (r: Outcome)
    ensures r.Pass? <==> Invariants(p, now)
  {
    if |p.title| == 0 then Fail(ErrInvalidPoll(MsgTitleRequired))
    else if |p.title| > MaxTitleLength then Fail(ErrInvalidPoll(MsgTitleTooLong))
    else if |p.description| > MaxDescriptionLength then Fail(ErrInvalidPoll(MsgDescriptionTooLong))
    else if |p.options| < MinOptions then Fail(ErrInvalidPoll(MsgTooFewOptions))
    else if |p.options| > MaxOptions then Fail(ErrInvalidPoll(MsgTooManyOptions))
    else if ValidateOptions(p.options).Fail? then ValidateOptions(p.options)
    else if !IsZero(p.expiresAt) && Before(p.expiresAt, now) then Fail(ErrInvalidPoll(MsgExpired))
    else Pass
  }

  // ---------------------------------------------------------------------------
  // Properties of the validator
  // ---------------------------------------------------------------------------

  /** The check that makes `Validate` fail, chosen as the code chooses it. */
  lemma FailingCheck(p: Poll, now: Time) returns (c: Check)
    requires Validate(p, now).Fail?
    ensures Fails(p, now, c) && Validate(p, now).err == ErrInvalidPoll(Message(c))
    ensures forall d :: Fails(p, now, d) ==> Rank(|p.options|, c) <= Rank(|p.options|, d)
  {
    var n := |p.options|;
    if |p.title| == 0 {
      c := TitleEmpty;
    } else if |p.title| > MaxTitleLength {
      c := TitleTooLong;
    } else if |p.description| > MaxDescriptionLength {
      c := DescriptionTooLong;
    } else if n < MinOptions {
      c := TooFewOptions;
    } else if n > MaxOptions {
      c := TooManyOptions;
    } else if ValidateOptions(p.options).Fail? {
      var i :| 0 <= i < n && !OptionTextOk(p.options[i])
        && (forall j :: 0 <= j < i ==> OptionTextOk(p.options[j]))
        && ValidateOptions(p.options).err == OptionError(p.options[i]);
      c := if |p.options[i].text| == 0 then OptionTextEmpty(i) else OptionTextTooLong(i);
      forall d ensures Fails(p, now, d) ==> Rank(n, c) <= Rank(n, d) {
        match d
        case OptionTextEmpty(j) =>
          if j < i { assert OptionTextOk(p.options[j]); }
        case OptionTextTooLong(j) =>
          if j < i { assert OptionTextOk(p.options[j]); }
        case _ =>
      }
    } else {
      c := Expired;
      forall d ensures Fails(p, now, d) ==> Rank(n, c) <= Rank(n, d) {
        match d
        case OptionTextEmpty(j) =>
          if j < n { assert OptionTextOk(p.options[j]); }
        case OptionTextTooLong(j) =>
          if j < n { assert OptionTextOk(p.options[j]); }
        case _ =>
      }
    }
  }

  /** Validate succeeds exactly when no individual check fails; when it fails,
      it reports the message of the failing check that comes first in the
      fixed order. */
  lemma ValidateReportsFirstFailingCheck(p: Poll, now: Time)
    ensures Validate(p, now).Pass? <==> forall c :: !Fails(p, now, c)
    ensures Validate(p, now).Fail? ==>
      exists c :: Fails(p, now, c)
        && Validate(p, now).err == ErrInvalidPoll(Message(c))
        && forall d :: Fails(p, now, d) ==> Rank(|p.options|, c) <= Rank(|p.options|, d)
  {
    if Validate(p, now).Pass? {
      forall c ensures !Fails(p, now, c) {
        match c
        case OptionTextEmpty(i) =>
          if i < |p.options| { assert OptionTextOk(p.options[i]); }
        case OptionTextTooLong(i) =>
          if i < |p.options| { assert OptionTextOk(p.options[i]); }
        case _ =>
      }
    } else {
      var c := FailingCheck(p, now);
    }
  }

  /** Two polls with the same title, description, expiry and option texts. */
  ghost predicate SameValidatedFields(p: Poll, q: Poll) {
    && p.title == q.title
    && p.description == q.description
    && p.expiresAt == q.expiresAt
    && |p.options| == |q.options|
    && forall i :: 0 <= i < |p.options| ==> p.options[i].text == q.options[i].text
  }

  /** The outcome depends only on the title, description, expiry and option
      texts: never on the IDs, vote counts or the two timestamps. */
  lemma ValidateReadsOnlyValidatedFields(p: Poll, q: Poll, now: Time)
    requires SameValidatedFields(p, q)
    ensures Validate(p, now) == Validate(q, now)
  {
    ValidateOptionsReadsOnlyTexts(p.options, q.options);
  }

  /** The option loop looks at nothing but the option texts. */
  lemma {:induction false} ValidateOptionsReadsOnlyTexts(a: seq<Option>, b: seq<Option>)
    requires |a| == |b|
    requires forall i :: 0 <= i < |a| ==> a[i].text == b[i].text
    ensures ValidateOptions(a) == ValidateOptions(b)
  {
    if a != [] {
      assert a[0].text == b[0].text;
      ValidateOptionsReadsOnlyTexts(a[1..], b[1..]);
    }
  }

  /** A title of exactly 200 bytes passes the title checks although the
      message says "less than 200"; 201 bytes are rejected. */
  lemma TitleLengthBoundary(p: Poll, now: Time)
    requires Invariants(p.(title := Ascii("T")), now)
    ensures |p.title| == MaxTitleLength ==> Validate(p, now) == Pass
    ensures |p.title| == MaxTitleLength + 1 ==> Validate(p, now) == Fail(ErrInvalidPoll(MsgTitleTooLong))
  {
  }

  /** An empty title is reported first, whatever else is wrong. */
  lemma EmptyTitleReportedFirst(p: Poll, now: Time)
    requires |p.title| == 0
    ensures Validate(p, now) == Fail(ErrInvalidPoll(MsgTitleRequired))
  {
  }

  /** Validation success bounds the number of options, and the two bounds
      report their own messages. */
  lemma OptionCountBounds(p: Poll, now: Time)
    requires 1 <= |p.title| <= MaxTitleLength && |p.description| <= MaxDescriptionLength
    ensures Validate(p, now).Pass? ==> MinOptions <= |p.options| <= MaxOptions
    ensures |p.options| < MinOptions ==> Validate(p, now) == Fail(ErrInvalidPoll(MsgTooFewOptions))
    ensures |p.options| > MaxOptions ==> Validate(p, now) == Fail(ErrInvalidPoll(MsgTooManyOptions))
  {
  }

  /** An unset expiry never causes rejection; a set expiry is rejected exactly
      when it lies strictly before `now`. */
  lemma ExpiryCheck(p: Poll, now: Time)
    requires Invariants(p.(expiresAt := ZeroTime), now)
    ensures IsZero(p.expiresAt) ==> Validate(p, now) == Pass
    ensures p.expiresAt == now ==> Validate(p, now) == Pass
    ensures !IsZero(p.expiresAt) && p.expiresAt < now ==> Validate(p, now) == Fail(ErrInvalidPoll(MsgExpired))
  {
  }

  /** The messages of different rules differ, so the reported message
      identifies the rule that failed. */
  lemma MessagesIdentifyRule(c: Check, d: Check)
    requires Message(c) == Message(d)
    ensures c.TitleEmpty? == d.TitleEmpty? && c.TitleTooLong? == d.TitleTooLong?
    ensures c.DescriptionTooLong? == d.DescriptionTooLong?
    ensures c.TooFewOptions? == d.TooFewOptions? && c.TooManyOptions? == d.TooManyOptions?
    ensures c.OptionTextEmpty? == d.OptionTextEmpty? && c.OptionTextTooLong? == d.OptionTextTooLong?
    ensures c.Expired? == d.Expired?
  {
  }

  // ---------------------------------------------------------------------------
  // The test table of the validator
  // ---------------------------------------------------------------------------

  /** Every character of `s` is ASCII, so it is one byte in UTF-8. */
  ghost predicate IsAscii(s: string) {
    forall i :: 0 <= i < |s| ==> s[i] < 128 as char
  }

  lemma AsciiAppend(a: string, b: string)
    requires IsAscii(a) && IsAscii(b)
    ensures IsAscii(a + b)
  {
    forall i | 0 <= i < |a + b|
      ensures (a + b)[i] < 128 as char
    {
      if i >= |a| {
        assert (a + b)[i] == b[i - |a|];
      }
    }
  }

  /** The UTF-8 bytes of an ASCII literal. */
  function Ascii(s: string): (b: Bytes)
    requires IsAscii(s)
    ensures |b| == |s|
    ensures forall i :: 0 <= i < |s| ==> b[i] as int == s[i] as int
  {
    seq(|s|, i requires 0 <= i < |s| => s[i] as int as byte)
  }

  function TextOption(s: string): Option
    requires IsAscii(s)
  {
    Option("", Ascii(s), 0)
  }

  function TestPoll(title: string, options: seq<Option>, expiresAt: Time): Poll
    requires IsAscii(title)
  {
    Poll("", Ascii(title), [], options, ZeroTime, ZeroTime, expiresAt)
  }

  /** The sentence the "title too long" test case repeats three times. */
  const LongSentence := SentenceStart + SentenceMiddle + SentenceEnd
  const SentenceStart := "This is a very long title "
  const SentenceMiddle := "that exceeds the maximum "
  const SentenceEnd := "allowed length of 200 characters."

  lemma LongSentenceIsAscii()
    ensures |LongSentence| == 84 && IsAscii(LongSentence)
  {
    assert IsAscii(SentenceStart) && IsAscii(SentenceMiddle) && IsAscii(SentenceEnd);
    AsciiAppend(SentenceStart, SentenceMiddle);
    AsciiAppend(SentenceStart + SentenceMiddle, SentenceEnd);
  }

  /** The valid case of the validator's test table. */
  lemma ValidTestPollPasses(now: Time)
    ensures Validate(TestPoll("Test Poll", [TextOption("Option 1"), TextOption("Option 2")], ZeroTime), now).Pass?
  {
  }

  /** The invalid cases of the validator's test table, each rejected by the
      rule it was written for. */
  lemma InvalidTestPollsFail(now: Time)
    ensures Validate(TestPoll("", [TextOption("Option 1"), TextOption("Option 2")], ZeroTime), now)
      == Fail(ErrInvalidPoll(MsgTitleRequired))
    ensures IsAscii(LongSentence + " " + LongSentence + " " + LongSentence)
      && Validate(TestPoll(LongSentence + " " + LongSentence + " " + LongSentence,
      [TextOption("Option 1"), TextOption("Option 2")], ZeroTime), now)
      == Fail(ErrInvalidPoll(MsgTitleTooLong))
    ensures Validate(TestPoll("Test Poll", [TextOption("Option 1")], ZeroTime), now)
      == Fail(ErrInvalidPoll(MsgTooFewOptions))
    ensures Validate(TestPoll("Test Poll",
      [TextOption("Option 1"), TextOption("Option 2"), TextOption("Option 3"), TextOption("Option 4"),
       TextOption("Option 5"), TextOption("Option 6"), TextOption("Option 7"), TextOption("Option 8"),
       TextOption("Option 9"), TextOption("Option 10"), TextOption("Option 11")], ZeroTime), now)
      == Fail(ErrInvalidPoll(MsgTooManyOptions))
    ensures Validate(TestPoll("Test Poll", [TextOption(""), TextOption("Option 2")], ZeroTime), now)
      == Fail(ErrInvalidPoll(MsgOptionTextEmpty))
    ensures now - 24 * 3600 * 1000000000 != ZeroTime ==>
      Validate(TestPoll("Test Poll", [TextOption("Option 1"), TextOption("Option 2")], now - 24 * 3600 * 1000000000), now)
      == Fail(ErrInvalidPoll(MsgExpired))
  {
    LongSentenceIsAscii();
    AsciiAppend(LongSentence, " ");
    AsciiAppend(LongSentence + " ", LongSentence);
    AsciiAppend(LongSentence + " " + LongSentence, " ");
    AsciiAppend(LongSentence + " " + LongSentence + " ", LongSentence);
  }
}
