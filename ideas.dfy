/**
 * The contact form's "generate ideas" action: a fixed table of five design briefs,
 * searched in declaration order for the first key related to the project type, with a
 * generic brief, quoting the project type, when no key is related.
 */
module DesignIdeas {
  import opened Options
  import opened Text

  /** The brief for "logo design" (Contact.tsx lines 145-164). */
  const LogoDesignIdeas: string :=
    "Design Concepts for Logo:\n"
    + "\n"
    + "1. MINIMALIST MARK\n"
    + "   - Clean, geometric shape representing your initials\n"
    + "   - Single color (prefer navy or violet)\n"
    + "   - Scalable across all mediums\n"
    + "\n"
    + "2. ABSTRACT ICON\n"
    + "   - Modern symbol reflecting design philosophy\n"
    + "   - Versatile for web & print\n"
    + "   - Memorable and distinctive\n"
    + "\n"
    + "3. WORDMARK\n"
    + "   - Custom typography with your name\n"
    + "   - Integrated with a subtle icon\n"
    + "   - Bold, professional presence\n"
    + "\n"
    + "Color Palette: Midnight Navy (#0B0F1A), Royal Violet (#8F00FF), Sky Teal (#00E0C6)\n"
    + "Typography: DM Sans or Poppins for modern feel\n"
    + "Style: Contemporary, premium, minimalist"

  /** The brief for "branding". */
  const BrandingIdeas: string :=
    "Complete Branding Strategy:\n"
    + "\n"
    + "1. BRAND IDENTITY\n"
    + "   - Core values and mission statement\n"
    + "   - Visual language and design principles\n"
    + "   - Target audience analysis\n"
    + "\n"
    + "2. VISUAL SYSTEM\n"
    + "   - Primary logo and variations\n"
    + "   - Color palette with specifications\n"
    + "   - Typography system (headings, body, accents)\n"
    + "\n"
    + "3. APPLICATION GUIDELINES\n"
    + "   - Brand positioning and messaging\n"
    + "   - Marketing collateral design\n"
    + "   - Digital & print touchpoints\n"
    + "\n"
    + "Recommended Approach: Premium, modern aesthetic with violet and teal accents. Focus on clean, minimalist design reflecting professionalism."

  /** The brief for "social media". */
  const SocialMediaIdeas: string :=
    "Social Media Content Strategy:\n"
    + "\n"
    + "1. VISUAL STYLE\n"
    + "   - Consistent color palette (violet/teal theme)\n"
    + "   - Square and vertical formats\n"
    + "   - High-quality photography & graphics\n"
    + "\n"
    + "2. CONTENT PILLARS\n"
    + "   - Portfolio showcases (60%)\n"
    + "   - Design tips & process (20%)\n"
    + "   - Behind-the-scenes content (20%)\n"
    + "\n"
    + "3. POSTING SCHEDULE\n"
    + "   - 3-4 posts per week\n"
    + "   - Stories for engagement\n"
    + "   - Reels for reach and discovery\n"
    + "\n"
    + "Platforms: Instagram, Pinterest, LinkedIn\n"
    + "Format: Grid-friendly designs with strong visual hierarchy"

  /** The brief for "packaging". */
  const PackagingIdeas: string :=
    "Packaging Design Concepts:\n"
    + "\n"
    + "1. STRUCTURAL DESIGN\n"
    + "   - Custom box/container shape\n"
    + "   - Eco-friendly materials option\n"
    + "   - Unboxing experience focus\n"
    + "\n"
    + "2. VISUAL DESIGN\n"
    + "   - Brand logo prominently displayed\n"
    + "   - Consistent color scheme\n"
    + "   - Typography hierarchy\n"
    + "\n"
    + "3. FUNCTIONAL ELEMENTS\n"
    + "   - QR codes for product info\n"
    + "   - Sustainability messaging\n"
    + "   - Brand story integration\n"
    + "\n"
    + "Materials: Premium cardboard, matte finish with spot UV\n"
    + "Design: Modern, luxury feel with your brand colors"

  /** The brief for "print materials". */
  const PrintMaterialsIdeas: string :=
    "Print Design Package:\n"
    + "\n"
    + "1. BUSINESS CARDS\n"
    + "   - Double-sided design\n"
    + "   - Premium stock (300gsm minimum)\n"
    + "   - Spot UV or foil accents\n"
    + "\n"
    + "2. LETTERHEAD & ENVELOPES\n"
    + "   - Consistent brand identity\n"
    + "   - Professional layout\n"
    + "   - Quality paper stock\n"
    + "\n"
    + "3. BROCHURES & FLYERS\n"
    + "   - Compelling layout with hierarchy\n"
    + "   - High-resolution images\n"
    + "   - Clear call-to-action\n"
    + "\n"
    + "Specifications: CMYK color mode, 300 DPI minimum, bleed requirements\n"
    + "Printing: Professional offset or digital printing"

  /** The keys of the `ideas` object, in declaration order, which is the order
      `Object.entries` yields them in. */
  const Keys: seq<string> := ["logo design", "branding", "social media", "packaging", "print materials"]

  /** The briefs of the `ideas` object, in the same order as their keys. */
  const Briefs: seq<string> := [LogoDesignIdeas, BrandingIdeas, SocialMediaIdeas, PackagingIdeas, PrintMaterialsIdeas]

  /** What follows the heading of the generic brief. */
  const FallbackBody: string :=
    "\n"
    + "\n"
    + "1. CONCEPT EXPLORATION\n"
    + "   - 3-5 unique design directions\n"
    + "   - Modern and professional approach\n"
    + "   - Aligned with current trends\n"
    + "\n"
    + "2. CREATIVE EXECUTION\n"
    + "   - Color palette with primary and accent colors\n"
    + "   - Typography recommendations\n"
    + "   - Visual style and mood\n"
    + "\n"
    + "3. DELIVERABLES\n"
    + "   - High-resolution files\n"
    + "   - Multiple format exports\n"
    + "   - Brand guidelines documentation\n"
    + "\n"
    + "Next Steps: Let's discuss your specific vision and requirements to create something exceptional!"

  /** The heading of the generic brief, up to the quoted project type. */
  const FallbackHeading: string := "Design Ideas for \""

  /** The generic brief: its heading quotes the project type exactly as it was given. */
  function FallbackIdeas(projectType: string): (r: string)
    ensures |r| == |FallbackHeading| + |projectType| + 2 + |FallbackBody|
    ensures r[..|FallbackHeading|] == FallbackHeading
    ensures r[|FallbackHeading|..|FallbackHeading| + |projectType|] == projectType
    ensures r[|FallbackHeading| + |projectType|..|FallbackHeading| + |projectType| + 2] == "\":"
    ensures r[|FallbackHeading| + |projectType| + 2..] == FallbackBody
  {
    FallbackHeading + projectType + "\":" + FallbackBody
  }

  /** The loop's test: the lower-cased project type contains the key, or the key contains it. */
  predicate KeyMatches(lower: string, key: string)
  {
    Contains(lower, key) || Contains(key, lower)
  }

  /** The `for...of` loop from entry `n` on: the index of the first key that matches. */
  function FirstMatch(lower: string, keys: seq<string>, n: nat): (r: Option<nat>)
    requires n <= |keys|
    ensures r.Some? ==> n <= r.value < |keys| && KeyMatches(lower, keys[r.value])
    ensures r.Some? ==> forall m :: n <= m < r.value ==> !KeyMatches(lower, keys[m])
    ensures r.None? <==> forall m :: n <= m < |keys| ==> !KeyMatches(lower, keys[m])
    decreases |keys| - n
  {
    if n == |keys| then None
    else if KeyMatches(lower, keys[n]) then Some(n)
    else FirstMatch(lower, keys, n + 1)
  }

  /** The scan from `k` stops at the first matching key `n`. */
  lemma {:induction false} FirstMatchAt(lower: string, keys: seq<string>, k: nat, n: nat)
    requires k <= n < |keys| && KeyMatches(lower, keys[n])
    requires forall m :: k <= m < n ==> !KeyMatches(lower, keys[m])
    ensures FirstMatch(lower, keys, k) == Some(n)
    decreases n - k
  {
    if k < n {
      FirstMatchAt(lower, keys, k + 1, n);
    }
  }

  /** The index of the entry the loop returns, if any. */
  function Selection(projectType: string): (r: Option<nat>)
    ensures r.Some? ==> r.value < |Keys|
  {
    FirstMatch(Lower(projectType), Keys, 0)
  }

  /** `generateDesignIdeas`: the brief of the first related key, or else the generic brief. */
  function GenerateDesignIdeas(projectType: string): string
  {
    match Selection(projectType)
    case Some(n) => Briefs[n]
    case None => FallbackIdeas(projectType)
  }

  /** The entry selected is the first key, in declaration order, related to the
      lower-cased project type; keys after it are never consulted. */
  lemma SelectFirstRelated(projectType: string, n: nat)
    requires n < |Keys| && KeyMatches(Lower(projectType), Keys[n])
    requires forall m :: 0 <= m < n ==> !KeyMatches(Lower(projectType), Keys[m])
    ensures Selection(projectType) == Some(n)
  {
    FirstMatchAt(Lower(projectType), Keys, 0, n);
  }

  /** The brief returned is the one of the selected entry. */
  lemma GenerateSelected(projectType: string, n: nat)
    requires Selection(projectType) == Some(n)
    ensures GenerateDesignIdeas(projectType) == Briefs[n]
  {
  }

  /** The brief returned is that of the first related key. */
  lemma GenerateFirstRelated(projectType: string, n: nat)
    requires n < |Keys| && KeyMatches(Lower(projectType), Keys[n])
    requires forall m :: 0 <= m < n ==> !KeyMatches(Lower(projectType), Keys[m])
    ensures GenerateDesignIdeas(projectType) == Briefs[n]
  {
    SelectFirstRelated(projectType, n);
    GenerateSelected(projectType, n);
  }

  /** The generic brief is returned exactly when no key is related to the project type. */
  lemma GenerateUnrelated(projectType: string)
    ensures (forall m :: 0 <= m < |Keys| ==> !KeyMatches(Lower(projectType), Keys[m]))
            <==> Selection(projectType).None?
    ensures Selection(projectType).None?
            ==> GenerateDesignIdeas(projectType) == FallbackIdeas(projectType)
  {
  }

  /** Any mention of "logo design" selects the logo brief, whatever else is mentioned
      ("logo design and branding" included), since that key is declared first. */
  lemma LogoDesignWins(projectType: string)
    requires Contains(Lower(projectType), "logo design")
    ensures GenerateDesignIdeas(projectType) == LogoDesignIdeas
  {
    SelectFirstRelated(projectType, 0);
    GenerateSelected(projectType, 0);
  }

  /** The empty project type is contained in every key, so it selects the first brief. */
  lemma EmptySelectsLogo()
    ensures GenerateDesignIdeas("") == LogoDesignIdeas
  {
    ContainsAt("logo design", "", 0);
    SelectFirstRelated("", 0);
    GenerateSelected("", 0);
  }

  lemma LowerLogoDesign()
    ensures Lower("Logo Design") == "logo design"
  {
  }

  /** Every text contains itself. */
  lemma ContainsItself(s: string)
    ensures Contains(s, s)
  {
    ContainsAt(s, s, 0);
  }

  /** "Logo Design" selects the first entry. */
  lemma LogoDesignSelected()
    ensures Selection("Logo Design") == Some(0)
  {
    LowerLogoDesign();
    ContainsItself("logo design");
    SelectFirstRelated("Logo Design", 0);
  }

  /** Matching ignores ASCII case. */
  lemma CaseInsensitiveExample()
    ensures GenerateDesignIdeas("Logo Design") == LogoDesignIdeas
  {
    LogoDesignSelected();
    GenerateSelected("Logo Design", 0);
  }

  /** "brand", a fragment of the second key, selects the second entry. */
  lemma BrandSelected()
    ensures Selection("brand") == Some(1)
  {
    assert Lower("brand") == "brand";
    AbsentFirstChar("logo design", "brand");
    ContainsAt("branding", "brand", 0);
    SelectFirstRelated("brand", 1);
  }

  /** A fragment of a key selects that key's brief: "brand" is inside "branding". */
  lemma FragmentExample()
    ensures GenerateDesignIdeas("brand") == BrandingIdeas
  {
    BrandSelected();
    GenerateSelected("brand", 1);
  }

  /** "zebra" is related to no key. */
  lemma ZebraUnrelated()
    ensures FirstMatch("zebra", Keys, 0).None?
  {
    AbsentFirstChar("logo design", "zebra");
    AbsentFirstChar("branding", "zebra");
    AbsentFirstChar("social media", "zebra");
    AbsentFirstChar("packaging", "zebra");
    AbsentFirstChar("print materials", "zebra");
  }

  /** A project type related to no key, such as "Zebra" in any casing, gets the
      generic brief, which quotes it as typed. */
  lemma UnrelatedExample(projectType: string)
    requires Lower(projectType) == "zebra"
    ensures GenerateDesignIdeas(projectType) == FallbackIdeas(projectType)
  {
    ZebraUnrelated();
    GenerateUnrelated(projectType);
  }
}
