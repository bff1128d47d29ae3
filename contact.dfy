/**
 * The input checks the contact form makes before it acts: the business idea sent
 * for a design brief, and the project type the idea templates are looked up by.
 */
module ContactForm {
  import opened Options
  import opened Text
  import opened Errors
  import opened DesignIdeas

  /** The shortest business idea, after trimming, that is sent for a brief. */
  const MinBriefLength: nat := 10

  const BriefField: string := "Business Idea"
  const BriefTooShort: string := "Please provide at least 10 characters"

  /** The checks at the top of `generateDesignBrief`: the error it reports, or none
      when the request goes ahead. */
  function ValidateBriefQuery(query: string): (r: Option<AppError>)
    ensures r.None? <==> |Trim(query)| >= MinBriefLength
    ensures AllWhitespace(query) <==> r == Some(EmptyInput(BriefField))
    ensures !AllWhitespace(query) && |Trim(query)| < MinBriefLength
            <==> r == Some(InvalidInput(BriefField, BriefTooShort))
  {
    TrimEmptyIff(query);
    if Trim(query) == [] then Some(EmptyInput(BriefField))
    else if |Trim(query)| < MinBriefLength then Some(InvalidInput(BriefField, BriefTooShort))
    else None
  }

  /** Only the trimmed query is judged. */
  lemma ValidateBriefTrimmed(query: string)
    ensures ValidateBriefQuery(Trim(query)) == ValidateBriefQuery(query)
  {
    TrimIdempotent(query);
  }

  /** The two rejections carry different codes, both with status 400. */
  lemma BriefRejections(query: string)
    requires ValidateBriefQuery(query).Some?
    ensures ValidateBriefQuery(query).value.statusCode == Some(400)
    ensures ValidateBriefQuery(query).value.code == "EMPTY_INPUT" <==> AllWhitespace(query)
    ensures ValidateBriefQuery(query).value.code == "INVALID_INPUT" <==> !AllWhitespace(query)
  {
  }

  /** The field name as the brief errors show it to the user. */
  lemma BriefFieldLower()
    ensures Lower(BriefField) == "business idea"
  {
  }

  /** The texts the user sees for the two rejections name the field "business idea". */
  lemma BriefUserMessages()
    ensures EmptyInput(BriefField).userMessage == "Please provide a " + "business idea" + "."
    ensures InvalidInput(BriefField, BriefTooShort).userMessage
            == "Your " + "business idea" + " is invalid: " + BriefTooShort
  {
    BriefFieldLower();
  }

  /** What pressing "generate ideas" leads to: an error for the user, or the text put
      into the message field. */
  datatype Outcome = Rejected(error: AppError) | Filled(text: string)

  const ProjectTypeField: string := "Project Type"

  /** `generateIdeas`: a blank project type is rejected; otherwise the trimmed project
      type is looked up. */
  function GenerateIdeas(subject: string): (r: Outcome)
    ensures r.Rejected? <==> AllWhitespace(subject)
    ensures r.Rejected? ==> r.error == EmptyInput(ProjectTypeField)
  {
    TrimEmptyIff(subject);
    if Trim(subject) == [] then Rejected(EmptyInput(ProjectTypeField))
    else Filled(GenerateDesignIdeas(Trim(subject)))
  }

  /** With the field read once, the lookup sees a non-empty project type with no
      whitespace around it. */
  lemma GenerateIdeasLooksUpTrimmed(subject: string)
    requires !AllWhitespace(subject)
    ensures Trim(subject) != [] && GenerateIdeas(subject) == Filled(GenerateDesignIdeas(Trim(subject)))
    ensures !IsWhitespace(Trim(subject)[0]) && !IsWhitespace(Trim(subject)[|Trim(subject)| - 1])
  {
    TrimEmptyIff(subject);
    TrimEnds(subject);
  }

  /** A project type naming the logo brief fills in that brief, whatever whitespace
      surrounds it. */
  lemma GenerateIdeasLogo(subject: string)
    requires Contains(Lower(Trim(subject)), "logo design")
    ensures GenerateIdeas(subject) == Filled(LogoDesignIdeas)
  {
    TrimEmptyIff(subject);
    LogoDesignWins(Trim(subject));
  }
}
