# Portfolio contact form: message enhancer, idea templates, errors and image URLs

This project models the client-side logic of a designer's portfolio site in Dafny and proves properties of it. Four parts are modelled:

- **The "enhance message" button of the contact form.** `enhanceMessageText` rewrites a message in five fixed steps, and `enhanceMessage` applies it to the trimmed message when that is not blank. The steps are:
  1. a lead-in unless the text opens with a greeting;
  2. one period inserted by the multiline replacement `/([^.!?])\s*$/m`;
  3. bullet normalisation;
  4. seven whole-word, case-insensitive phrase substitutions;
  5. a closing line unless a closing marker is present.

  Each step is a function on strings, and the operation is their composition. The regular expressions are modelled with ECMAScript semantics: `\s` is the ECMAScript white-space and line-terminator set, `\b` uses the ASCII `\w` set, and `$` in multiline mode holds before a line terminator or at the end. The punctuation step replaces only the leftmost match, with the longest whitespace run that still reaches a line end.
- **The "generate ideas" button (`generateDesignIdeas`).** It looks up an ordered table of five design briefs: the first key contained in the lower-cased project type, or containing it, wins. Otherwise a generic brief quotes the project type as typed.
- **The input checks before a design brief is requested, and before the idea lookup.**
- **The error taxonomy of `errors.ts`:**
  - `createError` and its ten factories;
  - `handleError`, over a datatype of thrown values;
  - `handleFetchError`, over an abstract outcome of reading the response body;
  - the two toast configurations.
- **`optimizeImageUrl` and `getImagePlaceholder`, including `encodeURIComponent` with UTF-8 percent-escapes.**

Modules:

| module | file | models |
|---|---|---|
| `Options` | options.dfy | the optional value |
| `Text` | text.dfy | JavaScript `toLowerCase`, `includes`, `trim`, and the decimal rendering of numbers in template strings |
| `MessageEnhancer` | enhancer.dfy | `enhanceMessageText`, `enhanceMessage` |
| `DesignIdeas` | ideas.dfy | `generateDesignIdeas` |
| `ContactForm` | contact.dfy | the checks of `generateDesignBrief` and `generateIdeas` |
| `Errors` | errors.dfy | `errors.ts` |
| `ImageOptimization` | image.dfy | `image-optimization.ts` |

Three behaviours of the code are easy to misread. The model follows the code in all three:

- The punctuation step is not tied to the last line. The non-global multiline replacement acts on the first line whose end is not preceded by `.`, `!` or `?`, and drops the whitespace its `\s*` matched there. `"a\nb"` becomes `"a.\nb"`, and `"hi  "` becomes `"hi."`.
- On a line that ends in punctuation followed by spaces, the `[^.!?]` class matches a space. So `"Done. "` becomes `"Done. ."`.
- The enhancer is not a no-op on a blank text. Only `enhanceMessage` skips blank messages.

## Model

| member | source | states |
|---|---|---|
| MessageEnhancer.AddLeadIn | client/src/components/Contact.tsx:296-298 | The lead-in "I'm reaching out regarding a design project. " is prepended exactly when the text does not start, ignoring case, with hi, hello, hey, good or greetings; otherwise the text is unchanged |
| MessageEnhancer.Punctuate | client/src/components/Contact.tsx:301 | With no match the text is unchanged. With the leftmost match (the earliest non-.!? character followed by whitespace up to a line end, taking the longest such run), the character is kept, "." follows it, and the matched whitespace is removed |
| MessageEnhancer.LeftmostGreedyUnique | client/src/components/Contact.tsx:301 | The leftmost, longest match is unique |
| MessageEnhancer.LeftmostGreedyExists | client/src/components/Contact.tsx:301 | If any match exists, the search finds the leftmost, longest one |
| MessageEnhancer.SingleLineMatch | client/src/components/Contact.tsx:301 | On one line without final punctuation, the match is the last non-space character, or, when the text without trailing space ends in punctuation or is empty, the first trailing space character; it reaches the end |
| MessageEnhancer.SingleLinePunctuate | client/src/components/Contact.tsx:301 | On one line without final punctuation, the result is the text up to the captured character followed by "." |
| MessageEnhancer.PunctuateSingleLine | client/src/components/Contact.tsx:301 | A single-line text not ending in . ! ? ends in "." afterwards: its trailing whitespace is replaced by ".", or, after punctuation, one space is kept before the "." |
| MessageEnhancer.PunctuateSingleLineDone | client/src/components/Contact.tsx:301 | A single-line text already ending in . ! ? is unchanged |
| MessageEnhancer.PunctuateFirstLine | client/src/components/Contact.tsx:301 | "a\nb" becomes "a.\nb": the first unpunctuated line is the one that is changed |
| MessageEnhancer.PunctuateAfterPunctuation | client/src/components/Contact.tsx:301 | "Done. " becomes "Done. .", since the space itself matches [^.!?] |
| MessageEnhancer.PunctuateDropsTrailingSpace | client/src/components/Contact.tsx:301 | "hi  " becomes "hi.": the matched whitespace is removed |
| MessageEnhancer.NormalizeBullets | client/src/components/Contact.tsx:304 | The result is empty exactly when the text is, and it begins with whitespace exactly when the text does |
| MessageEnhancer.NormalizeBulletsNormal | client/src/components/Contact.tsx:304 | After the step, every "-" or "•" followed by whitespace is the glyph "•" followed by exactly one space and then by a non-whitespace character or the end |
| MessageEnhancer.NormalizeBulletsFixed | client/src/components/Contact.tsx:304 | A text already in that form is unchanged |
| MessageEnhancer.WhitespaceRunIs | client/src/components/Contact.tsx:304 | The `\s+` run after a mark is exactly the whitespace up to the first non-whitespace character or the end |
| MessageEnhancer.NormalizeBulletsCopies | client/src/components/Contact.tsx:304 | In any text, a character that is not a mark directly before whitespace is copied, and the rest is normalised: a hyphen before a letter is untouched |
| MessageEnhancer.NormalizeBulletsCollapses | client/src/components/Contact.tsx:304 | In any text, a mark followed by a whole run of whitespace of any length becomes "• ", and the rest is normalised |
| MessageEnhancer.NormalizeBulletsIdempotent | client/src/components/Contact.tsx:304 | Normalising twice is normalising once, and the step changes a text exactly when the text is not yet in normal form |
| MessageEnhancer.ReplaceFrom | client/src/components/Contact.tsx:308-314 | No contract of its own: the global scan, replacing each whole-word match and resuming after it; see ReplaceSkip and LeftmostReplacement |
| MessageEnhancer.ReplaceWord | client/src/components/Contact.tsx:308-314 | No contract of its own: one `replace(/\b<phrase>\b/gi, …)` call; see LeftmostReplacement, ReplaceWordAbsent and ReplaceWordPresent |
| MessageEnhancer.ReplaceSkip | client/src/components/Contact.tsx:308-314 | A global replacement copies the text unchanged up to the first whole-word occurrence of the phrase |
| MessageEnhancer.LeftmostReplacement | client/src/components/Contact.tsx:308-314 | At the first whole-word, case-insensitive occurrence, the phrase is replaced and scanning resumes after it; with no occurrence the rest is copied |
| MessageEnhancer.ReplaceWordAbsent | client/src/components/Contact.tsx:308-314 | A text without a whole-word occurrence of the phrase is unchanged |
| MessageEnhancer.ReplaceWordPresent | client/src/components/Contact.tsx:308-314 | A text with a whole-word occurrence of the phrase contains the replacement afterwards |
| MessageEnhancer.SubstituteAll | client/src/components/Contact.tsx:307-314 | No contract of its own: the chain of replacements in table order; see SurvivesAll |
| MessageEnhancer.SubstitutePhrases | client/src/components/Contact.tsx:307-314 | No contract of its own: the chain over the seven phrases; see SubstitutePhrasesSplit |
| MessageEnhancer.SubstitutePhrasesSplit | client/src/components/Contact.tsx:307-314 | The substitutions run in the listed order: "i want", "can you" and "you should" first, then the remaining four |
| MessageEnhancer.NicetiesUntouched | client/src/components/Contact.tsx:312 | "nice" inside "niceties" is not replaced |
| MessageEnhancer.SoonestUntouched | client/src/components/Contact.tsx:314 | "soon" inside "soonest" is not replaced |
| MessageEnhancer.UpperCaseReplaced | client/src/components/Contact.tsx:312 | "NICE work" becomes "professional work": matching ignores case and the rest is copied |
| MessageEnhancer.Survives | client/src/components/Contact.tsx:308-314 | A lower-case word occurring in the text, which the phrase does not contain, still occurs after one substitution |
| MessageEnhancer.SurvivesAll | client/src/components/Contact.tsx:308-314 | The same across a whole table of substitutions |
| MessageEnhancer.AddClosing | client/src/components/Contact.tsx:317-319 | The closing line is appended exactly when none of thanks, regards, appreciate or "looking forward" occurs, ignoring case; otherwise the text is unchanged |
| MessageEnhancer.YouShouldSuppressesClosing | client/src/components/Contact.tsx:307-319 | If "you should" is still a whole word when its substitution runs, the closing line is not added, because "appreciate" survives the later substitutions |
| MessageEnhancer.CanYouShouldFirstStep | client/src/components/Contact.tsx:309 | "can you should" becomes "Would you be able to should" |
| MessageEnhancer.CanYouConsumesYou | client/src/components/Contact.tsx:309-310 | After that, "you should" is nowhere a whole word, so the premise of YouShouldSuppressesClosing cannot be dropped |
| MessageEnhancer.KeepsPrefix | client/src/components/Contact.tsx:301-319 | Steps 2 to 5 leave in place any prefix that has no line terminator or bullet mark, cannot hold the start of a whole-word phrase, and ends in a non-space or in punctuation and one more character |
| MessageEnhancer.LeadInStable | client/src/components/Contact.tsx:297 | The lead-in is such a prefix |
| MessageEnhancer.GreetingsStable | client/src/components/Contact.tsx:296 | Each greeting word is such a prefix |
| MessageEnhancer.EnhanceMessageText | client/src/components/Contact.tsx:292-322 | No contract of its own: the five steps in order; see the Enhance lemmas below |
| MessageEnhancer.EnhanceOpensWithLeadIn | client/src/components/Contact.tsx:292-322 | Without a greeting, the enhanced message starts with the whole lead-in |
| MessageEnhancer.EnhanceKeepsGreeting | client/src/components/Contact.tsx:292-322 | With a greeting, the enhanced message starts with the text's own greeting, in its own letter case |
| MessageEnhancer.EnhanceLeadInIff | client/src/components/Contact.tsx:292-322 | The enhanced message starts with the lead-in exactly when the text does not start with a greeting |
| MessageEnhancer.EnhanceNonEmpty | client/src/components/Contact.tsx:292-322 | The enhanced message is never empty, even for the empty text |
| MessageEnhancer.LeadInNoGreeting | client/src/components/Contact.tsx:296-297 | A text that starts with the lead-in does not start with a greeting |
| MessageEnhancer.EnhanceTwiceRepeatsLeadIn | client/src/components/Contact.tsx:296-298 | Enhancing a text without a greeting twice gives two lead-ins: the lead-in does not count as a greeting |
| MessageEnhancer.EnhanceMessage | client/src/components/Contact.tsx:274-286 | A blank or all-whitespace message is left as it is; otherwise the field receives the enhancement of the trimmed message |
| MessageEnhancer.EnhanceMessageKeepsContent | client/src/components/Contact.tsx:274-286 | A message with content is never emptied |
| MessageEnhancer.EnhanceMessageIgnoresPadding | client/src/components/Contact.tsx:282-283 | Surrounding whitespace makes no difference to a non-blank message's result |
| DesignIdeas.FallbackIdeas | client/src/components/Contact.tsx:254-271 | The generic brief is the heading `Design Ideas for "`, then the project type exactly as given, then `":` and the fixed body |
| DesignIdeas.FirstMatch | client/src/components/Contact.tsx:248-252 | Finds the first entry whose key is contained in the lower-cased project type or contains it; returns none exactly when no entry matches |
| DesignIdeas.FirstMatchAt | client/src/components/Contact.tsx:248-252 | The scan stops at the first matching entry |
| DesignIdeas.SelectFirstRelated | client/src/components/Contact.tsx:248-252 | When entry n is related and no earlier entry is, entry n is the one selected |
| DesignIdeas.GenerateDesignIdeas | client/src/components/Contact.tsx:143-272 | No contract of its own: the selected brief, or the generic one; see GenerateFirstRelated and GenerateUnrelated |
| DesignIdeas.GenerateFirstRelated | client/src/components/Contact.tsx:246-252 | The brief is that of the first related key, in the order logo design, branding, social media, packaging, print materials |
| DesignIdeas.GenerateUnrelated | client/src/components/Contact.tsx:248-254 | When no key is related, the generic brief is returned |
| DesignIdeas.LogoDesignWins | client/src/components/Contact.tsx:248-252 | A project type mentioning "logo design", with or without "branding", gets the logo brief |
| DesignIdeas.EmptySelectsLogo | client/src/components/Contact.tsx:248-252 | The empty project type is contained in every key and gets the logo brief |
| DesignIdeas.CaseInsensitiveExample | client/src/components/Contact.tsx:246-250 | "Logo Design" gets the logo brief |
| DesignIdeas.FragmentExample | client/src/components/Contact.tsx:248-250 | "brand", a fragment of a key, gets the branding brief |
| DesignIdeas.ZebraUnrelated | client/src/components/Contact.tsx:248-252 | No key is related to "zebra" |
| DesignIdeas.UnrelatedExample | client/src/components/Contact.tsx:248-254 | "zebra", in any letter case, gets the generic brief quoting it as typed |
| ContactForm.ValidateBriefQuery | client/src/components/Contact.tsx:77-94 | A blank query gives EMPTY_INPUT for "Business Idea"; a trimmed length of 1 to 9 gives INVALID_INPUT with "Please provide at least 10 characters"; the request proceeds exactly when the trimmed length is at least 10 |
| ContactForm.ValidateBriefTrimmed | client/src/components/Contact.tsx:77-85 | Only the trimmed query is judged |
| ContactForm.BriefRejections | client/src/components/Contact.tsx:77-94 | Both rejections have status 400, and the code tells a blank query from a short one |
| ContactForm.BriefFieldLower | client/src/lib/errors.ts:109 | The lower-cased field name is "business idea" |
| ContactForm.BriefUserMessages | client/src/lib/errors.ts:109-118 | The two rejections tell the user "Please provide a business idea." and "Your business idea is invalid: Please provide at least 10 characters" |
| ContactForm.GenerateIdeas | client/src/components/Contact.tsx:44-56 | A blank project type is rejected with EMPTY_INPUT for "Project Type"; any other is looked up |
| ContactForm.GenerateIdeasLooksUpTrimmed | client/src/components/Contact.tsx:46-56 | The lookup receives the trimmed project type, which is non-empty and neither starts nor ends with whitespace |
| ContactForm.GenerateIdeasLogo | client/src/components/Contact.tsx:55-56 | A project type mentioning "logo design" fills in the logo brief, whatever whitespace surrounds it |
| Errors.CreateError | client/src/lib/errors.ts:14-26 | Code, message and user message are copied; an omitted status becomes 500, and a given one is kept |
| Errors.NetworkError | client/src/lib/errors.ts:29-36 | NETWORK_ERROR, status 503 |
| Errors.ApiDetails | client/src/lib/errors.ts:41 | Absent or empty details read "Unknown error"; other details are kept |
| Errors.ApiError | client/src/lib/errors.ts:38-45 | API_ERROR, status 500, message "API Error: " followed by the details or "Unknown error", and a fixed user message |
| Errors.ValidationError | client/src/lib/errors.ts:47-54 | VALIDATION_ERROR, status 400 |
| Errors.AiGenerationError | client/src/lib/errors.ts:57-64 | AI_GENERATION_ERROR, status 500 |
| Errors.AiServiceUnavailable | client/src/lib/errors.ts:66-73 | AI_SERVICE_UNAVAILABLE, status 503 |
| Errors.MissingApiKey | client/src/lib/errors.ts:75-82 | MISSING_API_KEY, status 500 |
| Errors.TimeoutError | client/src/lib/errors.ts:85-92 | TIMEOUT_ERROR, status 408 |
| Errors.ParseError | client/src/lib/errors.ts:95-102 | PARSE_ERROR, status 500, and a message carrying the detail |
| Errors.EmptyInput | client/src/lib/errors.ts:105-112 | EMPTY_INPUT, status 400 |
| Errors.InvalidInput | client/src/lib/errors.ts:114-121 | INVALID_INPUT, status 400 |
| Errors.EmptyInputCasing | client/src/lib/errors.ts:105-112 | Messages are equal exactly when the field names are; user messages are equal exactly when the field names agree up to ASCII case |
| Errors.InvalidInputCasing | client/src/lib/errors.ts:114-121 | The same for invalidInput, for any fixed reason |
| Errors.CodesDistinct | client/src/lib/errors.ts:29-141 | The eleven codes of the table are pairwise distinct |
| Errors.FactoryCodes | client/src/lib/errors.ts:29-141 | Each of the ten factories and `handleFetchError` produces the code at its own entry of the table, whatever its arguments |
| Errors.HandleError | client/src/lib/errors.ts:144-162 | No contract of its own: the four cases of the thrown value; see HandleErrorClassifies and HandleErrorIdempotent |
| Errors.HandleErrorClassifies | client/src/lib/errors.ts:150-161 | For a value that is not an error record: NETWORK_ERROR exactly for a TypeError whose message contains "fetch"; PARSE_ERROR, carrying the message, exactly for any other TypeError; API_ERROR exactly for other Errors and other values. The message reads "Unknown error" for an Error with an empty message, and "Unknown error occurred" for a non-Error |
| Errors.HandleErrorIdempotent | client/src/lib/errors.ts:146-148 | An error record passes through unchanged, so handling a handled error changes nothing |
| Errors.HandleFetchError | client/src/lib/errors.ts:124-141 | FETCH_ERROR, with the response status as its status in every case |
| Errors.FetchErrorText | client/src/lib/errors.ts:126-132 | A readable body's non-empty error text becomes the message and the user message; a missing or empty one gives "Request failed" and "Something went wrong. Please try again." |
| Errors.FetchStatusInMessage | client/src/lib/errors.ts:134-139 | An unreadable body gives "HTTP " followed by the decimal status, which reads back as the status, and the user message "Request failed with status <status>. Please try again." |
| Errors.FetchStatusInjective | client/src/lib/errors.ts:134-139 | Two unreadable responses give the same message exactly when their statuses are equal |
| Errors.ErrorToast | client/src/lib/errors.ts:174-178 | Title "Error", the error's user message as description, destructive variant |
| Errors.SuccessToast | client/src/lib/errors.ts:180-184 | Title "Success", the given message as description, default variant |
| Errors.ToastsShowUserText | client/src/lib/errors.ts:174-184 | Two errors give the same toast exactly when their user messages are equal; success toasts differ exactly when their messages do; an error toast is never a success toast |
| ImageOptimization.OrDefault | client/src/lib/image-optimization.ts:2 | A given setting is used; an absent one takes the default |
| ImageOptimization.OptimizeImageUrl | client/src/lib/image-optimization.ts:1-15 | The URL is always a prefix of the result |
| ImageOptimization.OptimizeCases | client/src/lib/image-optimization.ts:2-14 | A URL containing "cloudinary" gets "?w=W&q=Q&f=auto", even when it also contains "imagekit"; otherwise one containing "imagekit" gets "?tr=w-W,q-Q,f-auto"; the result is the URL itself exactly when it names neither; the defaults are 1200 and 80; the empty URL is returned as it is |
| ImageOptimization.CloudinaryParams | client/src/lib/image-optimization.ts:8 | No contract of its own: the Cloudinary query; see OptimizeCases and CloudinaryParamsInjective |
| ImageOptimization.ImageKitParams | client/src/lib/image-optimization.ts:11 | No contract of its own: the ImageKit transformation; see OptimizeCases and ImageKitParamsInjective |
| ImageOptimization.CloudinaryParamsInjective | client/src/lib/image-optimization.ts:8 | Equal Cloudinary queries come from equal width and quality |
| ImageOptimization.ImageKitParamsInjective | client/src/lib/image-optimization.ts:11 | Equal ImageKit queries come from equal width and quality |
| ImageOptimization.OptimizeSettingsReadBack | client/src/lib/image-optimization.ts:7-12 | For a CDN URL, different settings always give different URLs |
| ImageOptimization.Utf8 | client/src/lib/image-optimization.ts:18 | One to four bytes, each below 256; a single byte equal to the code exactly for ASCII |
| ImageOptimization.HexDigit | client/src/lib/image-optimization.ts:18 | An upper-case hexadecimal digit whose value is the argument |
| ImageOptimization.EncodeUriComponent | client/src/lib/image-optimization.ts:18 | The output consists of unreserved characters, "%" and hexadecimal digits only |
| ImageOptimization.EncodeAppend | client/src/lib/image-optimization.ts:18 | Encoding works character by character |
| ImageOptimization.EncodeDecodeAscii | client/src/lib/image-optimization.ts:18 | Percent-decoding the encoding of an ASCII text gives the text back |
| ImageOptimization.EncodeKeepsApostrophes | client/src/lib/image-optimization.ts:18 | The encoding contains an apostrophe exactly when the input does |
| ImageOptimization.ImagePlaceholder | client/src/lib/image-optimization.ts:17-18 | No contract of its own: the SVG data URL with the encoded colour; see PlaceholderFill and DefaultPlaceholder |
| ImageOptimization.PlaceholderFill | client/src/lib/image-optimization.ts:17-18 | The placeholder is the fixed SVG head, the encoded colour, then the fixed tail; an ASCII colour decodes back from the fill value |
| ImageOptimization.DefaultPlaceholder | client/src/lib/image-optimization.ts:17-18 | Without a colour the fill is "%230B0F1A", the encoding of "#0B0F1A" |
| Text.Lower | client/src/components/Contact.tsx:250 | `toLowerCase` keeps the length and lowers each character on its own |
| Text.Contains | client/src/components/Contact.tsx:250 | No contract of its own: `includes`; see ContainsIff |
| Text.NatToString | client/src/lib/errors.ts:136 | A non-empty string of decimal digits, with a leading zero only for 0; see DecimalRoundTrip |
| Text.Trim | client/src/components/Contact.tsx:275 | No contract of its own: trailing whitespace cut after leading whitespace; see TrimSlice, TrimEnds, TrimEmptyIff and TrimIdempotent |
| Text.TrimStart | client/src/components/Contact.tsx:275 | Leading whitespace is cut: the result is a suffix, what was cut is all whitespace, and the result does not start with whitespace |
| Text.TrimEnd | client/src/components/Contact.tsx:275 | Trailing whitespace is cut: the result is a prefix, what was cut is all whitespace, and the result does not end with whitespace |
| Text.TrimSlice | client/src/components/Contact.tsx:275 | `trim` keeps a slice of the text and cuts only whitespace, from both ends |
| Text.TrimEnds | client/src/components/Contact.tsx:275 | The trimmed text neither starts nor ends with whitespace |
| Text.TrimEmptyIff | client/src/components/Contact.tsx:275 | `trim` gives the empty string exactly when the text is all whitespace |
| Text.TrimIdempotent | client/src/components/Contact.tsx:282 | Trimming twice is trimming once |
| Text.ContainsIff | client/src/components/Contact.tsx:250 | `includes` is true exactly when the word occurs at some index |
| Text.DecimalRoundTrip | client/src/lib/errors.ts:136 | A rendered status reads back as the number it renders |
| Text.NumberFieldCancel | client/src/lib/image-optimization.ts:8 | A number rendered between a fixed text and a non-digit can be read back |

## Left out

- The React components, hooks, dialogs, `toast` calls and DOM writes are not modelled, because they are UI state rather than logic. This includes the `messageRef`/`subjectRef` null checks and the assignments to the fields.
- The simulated delays (`setTimeout`) and `AbortSignal.timeout` are not modelled. They are asynchronous timing.
- The `fetch` calls are not modelled: the brief request, the form relay of `handleSubmit`, and the real `response.json()`. Only the checks before them are modelled, and `handleFetchError` receives the outcome of reading the body as a parameter.
- `ErrorHandler.logError` is not modelled. It writes to the console.
- client/src/pages/DesignConcepts.tsx, server/routes.ts and client/src/components/ui/layout-components.tsx are not part of this model. They hold fetch calls, calls into the AI service SDK, and styling.
- Text.Lower: `toLowerCase` is modelled for ASCII letters only, and other letters are left unchanged.
- Text.Trim and ContactForm.ValidateBriefQuery count lengths in Unicode scalar values. JavaScript counts UTF-16 code units, which differs for characters outside the Basic Multilingual Plane.
- Errors.HandleError:
  - Any thrown object that carries `code` and `userMessage`, even a `TypeError`, is the `ErrorShaped` case. It is returned as is.
  - Such an object missing `message` or `statusCode` is represented only through `statusCode`'s option. The record always has a message.
- Errors.HandleFetchError:
  - A truthy `error` field that is not a string (a number, an object) is not modelled.
  - A body of JSON `null` counts as unreadable, because reading `.error` from it throws inside the `try`.
  - Any other JSON value without a truthy `error` field is `NoErrorField`.
- ImageOptimization.OptimizeImageUrl: width and quality are natural numbers rendered in plain decimal. Fractional, negative and non-numeric values are not modelled, nor is JavaScript's rendering of them. Magnitudes of 10^21 and above, which a template string shows in exponential form ("1e+21"), are not modelled either, and neither are naturals beyond 2^53, which are not exact JavaScript numbers.
- ImageOptimization.EncodeDecodeAscii: the round trip through percent-decoding is proved only for ASCII text. Non-ASCII characters are encoded as UTF-8 escapes, but the decoder does not reassemble multi-byte sequences. Lone surrogates, on which `encodeURIComponent` throws, cannot occur in Dafny strings.
- MessageEnhancer.YouShouldSuppressesClosing: the premise requires "you should" to still be a whole word after the first two substitutions. It cannot be dropped: in "can you should", the "can you" substitution runs first and consumes the "you" (CanYouConsumesYou), so that substitution introduces no "appreciate".
- ContactForm.GenerateIdeas and MessageEnhancer.EnhanceMessage read the field once. The source reads it twice: it checks the trimmed value, waits (1200 ms at Contact.tsx:53, 800 ms at :280), then reads and trims it again (:55, :282). The inputs stay editable during the wait, so a field cleared meanwhile reaches `generateDesignIdeas("")`, which selects the logo brief, or `enhanceMessageText("")`. The model does not capture that interleaving.
- MessageEnhancer.EnhanceNonEmpty: this lemma states only that the result is non-empty. It does not state the exact result for the empty text: the lead-in, a "." after its final space, then the closing line.
- DesignIdeas: the five brief bodies are copied as constants. Nothing is proved about their wording beyond which one is chosen.
