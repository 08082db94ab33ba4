/** The Express middleware `validateShlokaInput`: it checks the `shloka` field
    of a request body in four stages (present and a non-empty string; not
    blank after trimming; at most 1000 characters after trimming; HTML tags
    removed), answers the first failing stage with status 400 and a fixed
    message, and otherwise writes the cleaned text back into the request body
    and hands the request on. A body that cannot be destructured ends in the
    catch branch with status 500. */
module ValidateInput {
  import opened JsString
  import opened TagStrip

  /** The value of `req.body.shloka` as the middleware distinguishes it. */
  datatype ShlokaField =
    | Missing              // the property is absent (undefined)
    | NonString            // any value whose typeof is not "string" (null, numbers, objects, ...)
    | Str(text: string)    // a string primitive

  /** What the middleware does with a request. */
  datatype Outcome =
    | Accept(cleaned: string)               // req.body.shloka := cleaned; next()
    | Reject(status: nat, message: string)  // res.status(status).json({ success: false, message })

  const MaxLength: nat := 1000

  const NotAStringMessage := "Invalid input: 'shloka' must be provided as a string."
  const EmptyMessage := "Invalid input: 'shloka' cannot be empty."
  const TooLongMessage := "Input too long: please limit your shloka to under 1000 characters."
  const InternalErrorMessage := "Internal server error during input validation."

  /** The request body as the middleware sees it: missing (undefined or
      null, so that destructuring it throws) or an object holding `shloka`. */
  datatype BodyValue = NoBody | Body(shloka: ShlokaField)

  /** The negation of `!shloka || typeof shloka !== "string"`: the value is
      a non-empty string primitive. */
  predicate IsProvidedString(f: ShlokaField)
  {
    f.Str? && f.text != []
  }

  /** The decision of the middleware for a given body, stage by stage. The
      first failing stage decides the answer; only a string that is not blank
      and at most `MaxLength` long after trimming is accepted, and what is
      accepted is the trimmed text with its tags removed. */
  function Validate(b: BodyValue): (o: Outcome)
    ensures o == Reject(500, InternalErrorMessage) <==> b.NoBody?
    ensures o == Reject(400, NotAStringMessage) <==> b.Body? && !IsProvidedString(b.shloka)
    ensures o == Reject(400, EmptyMessage) <==>
              b.Body? && IsProvidedString(b.shloka) && AllTrimmable(b.shloka.text)
    ensures o == Reject(400, TooLongMessage) <==>
              b.Body? && IsProvidedString(b.shloka) && !AllTrimmable(b.shloka.text)
              && |Trim(b.shloka.text)| > MaxLength
    ensures o.Accept? <==>
              b.Body? && IsProvidedString(b.shloka) && !AllTrimmable(b.shloka.text)
              && |Trim(b.shloka.text)| <= MaxLength
    ensures o.Accept? ==> o.cleaned == StripTags(Trim(b.shloka.text))
  {
    match b
    case NoBody => Reject(500, InternalErrorMessage)
    case Body(shloka) =>
      if !IsProvidedString(shloka) then Reject(400, NotAStringMessage)
      else
        var normalized := Trim(shloka.text);
        TrimEmptyIff(shloka.text);
        if |normalized| == 0 then Reject(400, EmptyMessage)
        else if |normalized| > MaxLength then Reject(400, TooLongMessage)
        else Accept(StripTags(normalized))
  }

  /** What an accepted request carries on: no `<` at all, at most `MaxLength`
      characters (the bound is checked before stripping, which only
      shortens), and a subsequence of the trimmed input, so no character
      that was not in the trimmed input. */
  lemma AcceptedIsClean(b: BodyValue)
    requires Validate(b).Accept?
    ensures var o := Validate(b);
            && '<' !in o.cleaned
            && |o.cleaned| <= |Trim(b.shloka.text)| <= MaxLength
            && IsSubsequence(o.cleaned, Trim(b.shloka.text))
            && multiset(o.cleaned) <= multiset(Trim(b.shloka.text))
  {
    var t := Trim(b.shloka.text);
    StripTagsSubsequence(t);
    SubsequenceBounds(StripTags(t), t);
  }

  /** Text without a `<` is accepted exactly as trimmed, stray `>`
      characters included. */
  lemma AcceptedPlainText(s: string)
    requires s != [] && !AllTrimmable(s) && |Trim(s)| <= MaxLength
    requires '<' !in Trim(s)
    ensures Validate(Body(Str(s))) == Accept(Trim(s))
  {
    StripTagsIdentity(Trim(s));
  }

  /** Leading whitespace and line terminators are trimmed before the length
      check, so they neither make a string too long nor change what is
      stored: a request and its padded copy get the same answer. */
  lemma LeadingPaddingIgnored(p: string, s: string)
    requires AllTrimmable(p)
    requires s != []
    ensures Validate(Body(Str(p + s))) == Validate(Body(Str(s)))
  {
    TrimIgnoresLeadingPadding(p, s);
    TrimEmptyIff(p + s);
    TrimEmptyIff(s);
  }

  /** The same for trailing whitespace and line terminators. */
  lemma TrailingPaddingIgnored(s: string, p: string)
    requires AllTrimmable(p)
    requires s != []
    ensures Validate(Body(Str(s + p))) == Validate(Body(Str(s)))
  {
    TrimIgnoresTrailingPadding(s, p);
    TrimEmptyIff(s + p);
    TrimEmptyIff(s);
  }

  /** Validating the stored value again removes nothing more: it is either
      rejected as missing or blank (stripping can leave nothing, or only
      whitespace, behind) or accepted as its own trimmed form. */
  lemma RevalidateCleaned(b: BodyValue)
    requires Validate(b).Accept?
    ensures var x := Validate(b).cleaned;
            Validate(Body(Str(x))) ==
              if x == [] then Reject(400, NotAStringMessage)
              else if AllTrimmable(x) then Reject(400, EmptyMessage)
              else Accept(Trim(x))
  {
    var x := Validate(b).cleaned;
    AcceptedIsClean(b);
    if x != [] && !AllTrimmable(x) {
      TrimKeepsAbsent(x, '<');
      AcceptedPlainText(x);
    }
  }

  /** The empty string is falsy, so it fails the first stage, not the
      emptiness stage. */
  lemma EmptyStringIsNotProvided()
    ensures Validate(Body(Str(""))) == Reject(400, NotAStringMessage)
  {
  }

  /** A body without a `shloka` property, or with a non-string one, fails the
      first stage. */
  lemma MissingOrNonStringRejected(f: ShlokaField)
    requires !f.Str?
    ensures Validate(Body(f)) == Reject(400, NotAStringMessage)
  {
  }

  /** A non-empty string of whitespace and line terminators only: rejected
      as empty, not as missing. */
  lemma BlankStringRejected(s: string)
    requires s != [] && AllTrimmable(s)
    ensures Validate(Body(Str(s))) == Reject(400, EmptyMessage)
  {
  }

  /** An example: a space, a tab and a newline. */
  lemma BlankExampleRejected()
    ensures Validate(Body(Str(" \t\n"))) == Reject(400, EmptyMessage)
  {
    assert AllTrimmable(" \t\n") by {
      forall k | 0 <= k < 3 ensures IsTrimmable(" \t\n"[k]) {
      }
    }
    BlankStringRejected(" \t\n");
  }

  /** A string that already starts and ends with a character `trim` keeps,
      and is not too long, is accepted with its tags removed. */
  lemma AcceptedWithoutTrimming(s: string)
    requires s != [] && !IsTrimmable(s[0]) && !IsTrimmable(s[|s| - 1])
    requires |s| <= MaxLength
    ensures Validate(Body(Str(s))) == Accept(StripTags(s))
  {
    TrimUnchanged(s);
    assert !AllTrimmable(s);
  }

  /** Emptiness is checked before stripping, so a lone tag is accepted and
      the stored value is empty. */
  lemma TagOnlyAccepted()
    ensures Validate(Body(Str("<b>"))) == Accept("")
  {
    var s := "<b>";
    AcceptedWithoutTrimming(s);
    assert s[1..] == "b>" && CloseIndex("b>") == 1;
    assert s[3..] == [];
  }

  /** An unclosed tag runs to the end of the text, and the stored value is
      not trimmed again: the space before the tag survives. */
  lemma UnclosedTagRunsToEnd()
    ensures Validate(Body(Str("ab <i"))) == Accept("ab ")
  {
    AcceptedWithoutTrimming("ab <i");
    UnclosedExample();
  }

  /** Helper: the tag removal of `UnclosedTagRunsToEnd`. */
  lemma UnclosedExample()
    ensures StripTags("ab <i") == "ab "
  {
    var s := "ab <i";
    assert s[1..] == "b <i" && "b <i"[1..] == " <i" && " <i"[1..] == "<i";
    OpenHead("<i");
  }

  /** A `<` inside a tag does not start a new one: the match of the first `<`
      runs to the first `>`. */
  lemma InnerOpenSwallowed()
    ensures StripTags("a<b<c>d") == "ad"
  {
    var s := "a<b<c>d";
    assert s[1..] == "<b<c>d";
    assert "<b<c>d"[1..] == "b<c>d" && CloseIndex("b<c>d") == 3;
    assert "<b<c>d"[5..] == "d";
    assert "d"[1..] == [];
  }

  /** The request body object, whose `shloka` property the middleware
      overwrites in place. */
  class RequestBody {
    var shloka: ShlokaField

    constructor (shloka: ShlokaField)
      ensures this.shloka == shloka
    {
      this.shloka := shloka;
    }
  }

  /** The Express request; `body` is null when no body was parsed. */
  class Request {
    var body: RequestBody?

    constructor (body: RequestBody?)
      ensures this.body == body
    {
      this.body := body;
    }

    /** The body as a value. */
    function View(): BodyValue
      reads this, body
    {
      if body == null then NoBody else Body(body.shloka)
    }
  }

  /** `validateShlokaInput(req, res, next)`: the answer is `Validate` of the
      body as it was; the body's `shloka` is overwritten with the cleaned
      text on acceptance and left as it was on every rejection. */
  method ValidateShlokaInput(req: Request) returns (o: Outcome)
    modifies req.body
    ensures o == Validate(old(req.View()))
    ensures req.body == old(req.body)
    ensures req.body != null ==>
              req.body.shloka == if o.Accept? then Str(o.cleaned) else old(req.body.shloka)
  {
    if req.body == null {
      // destructuring `req.body` throws; the catch branch answers
      return Reject(500, InternalErrorMessage);
    }
    var shloka := req.body.shloka;
    if !shloka.Str? || shloka.text == [] {
      return Reject(400, NotAStringMessage);
    }
    var normalized := Trim(shloka.text);
    if |normalized| == 0 {
      return Reject(400, EmptyMessage);
    }
    if |normalized| > MaxLength {
      return Reject(400, TooLongMessage);
    }
    var cleaned := StripTags(normalized);
    req.body.shloka := Str(cleaned);
    o := Accept(cleaned);
  }
}
