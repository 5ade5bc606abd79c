/** The security classifier: `assess_security_level` maps a free-text encryption
    descriptor to one of seven labelled levels, and `show_security_recommendations`
    picks the advice lines for the same descriptor. Both upper-case the descriptor
    and test substrings in a fixed priority order; the first match wins. */
module Security {
  import opened PyStr

  /** The seven outcomes of `assess_security_level`, one per branch. */
  datatype Level =
    | Excellent           // WPA3
    | Good                // WPA2 with AES
    | Acceptable          // WPA2 without AES
    | NeedsUpgrade        // WPA
    | ImmediatelyChange   // WEP
    | NoSecurity          // OPEN, or an empty descriptor
    | CheckManually       // anything else

  /** The severity buckets the labels name. */
  datatype Tier = Strong | Medium | Weak | VeryWeak | Unknown

  function TierOf(l: Level): Tier {
    match l
    case Excellent | Good => Strong
    case Acceptable | NeedsUpgrade => Medium
    case ImmediatelyChange => Weak
    case NoSecurity => VeryWeak
    case CheckManually => Unknown
  }

  /** The exact string `assess_security_level` returns for each level. */
  function Label(l: Level): string {
    match l
    case Excellent => "\U{2705} STRONG (Excellent)"
    case Good => "\U{2705} STRONG (Good)"
    case Acceptable => "\U{1F7E1} MEDIUM (Acceptable)"
    case NeedsUpgrade => "\U{1F7E1} MEDIUM (Needs Upgrade)"
    case ImmediatelyChange => "\U{274C} WEAK (Immediately Change)"
    case NoSecurity => "\U{274C} VERY WEAK (No Security!)"
    case CheckManually => "\U{1F7E1} UNKNOWN (Check Manually)"
  }

  /** Distinct levels print distinct labels, so the label determines the level. */
  lemma LabelInjective(a: Level, b: Level)
    ensures Label(a) == Label(b) ==> a == b
  {
    if Label(a) == Label(b) {
      assert Label(a)[2] == Label(b)[2];
      assert Label(a)[10] == Label(b)[10];
    }
  }

  /** `assess_security_level`: the level of a descriptor, decided on its upper-cased
      form by the first matching test. */
  function Assess(info: string): Level {
    var u := Upper(info);
    if Contains(u, "WPA3") then Excellent
    else if Contains(u, "WPA2") && Contains(u, "AES") then Good
    else if Contains(u, "WPA2") then Acceptable
    else if Contains(u, "WPA") then NeedsUpgrade
    else if Contains(u, "WEP") then ImmediatelyChange
    else if Contains(u, "OPEN") || u == "" then NoSecurity
    else CheckManually
  }

  /** The classification rules written as a decision table: each rule names its own
      condition together with what it excludes, disjoint from every other rule.
      "WPA" excludes the whole WPA family at once, since "WPA2" and "WPA3" contain it. */
  predicate Rule(l: Level, u: string) {
    match l
    case Excellent => Contains(u, "WPA3")
    case Good => !Contains(u, "WPA3") && Contains(u, "WPA2") && Contains(u, "AES")
    case Acceptable => !Contains(u, "WPA3") && Contains(u, "WPA2") && !Contains(u, "AES")
    case NeedsUpgrade => Contains(u, "WPA") && !Contains(u, "WPA2") && !Contains(u, "WPA3")
    case ImmediatelyChange => Contains(u, "WEP") && !Contains(u, "WPA")
    case NoSecurity => (Contains(u, "OPEN") || u == "") && !Contains(u, "WPA") && !Contains(u, "WEP")
    case CheckManually => u != "" && !Contains(u, "OPEN") && !Contains(u, "WPA") && !Contains(u, "WEP")
  }

  /** A descriptor naming WPA2 or WPA3 names WPA. */
  lemma WpaFamily(u: string)
    ensures Contains(u, "WPA2") ==> Contains(u, "WPA")
    ensures Contains(u, "WPA3") ==> Contains(u, "WPA")
  {
    assert Contains("WPA2", "WPA") by { assert "WPA2"[..3] == "WPA"; }
    assert Contains("WPA3", "WPA") by { assert "WPA3"[..3] == "WPA"; }
    if Contains(u, "WPA2") { ContainsTrans(u, "WPA2", "WPA"); }
    if Contains(u, "WPA3") { ContainsTrans(u, "WPA3", "WPA"); }
  }

  /** The first-match chain and the decision table agree: a descriptor gets level
      `l` exactly when rule `l` holds of its upper-cased form. */
  lemma AssessMatchesRules(info: string, l: Level)
    ensures Assess(info) == l <==> Rule(l, Upper(info))
  {
    WpaFamily(Upper(info));
  }

  /** Classification ignores case: the descriptor and its upper-cased form get the
      same level. */
  lemma AssessIgnoresCase(info: string)
    ensures Assess(Upper(info)) == Assess(info)
  {
    UpperIdempotent(info);
  }

  /** The WPA family is exactly what lifts a descriptor to STRONG or MEDIUM; in
      particular "WEP WPA2" is never WEAK, because the WPA2 branch comes first. */
  lemma StrongOrMediumIffWpa(info: string)
    ensures TierOf(Assess(info)) in {Strong, Medium} <==> Contains(Upper(info), "WPA")
  {
    WpaFamily(Upper(info));
  }

  /** WEAK means WEP named and no WPA of any generation. */
  lemma WeakIffWepOnly(info: string)
    ensures TierOf(Assess(info)) == Weak <==>
      Contains(Upper(info), "WEP") && !Contains(Upper(info), "WPA")
  {
    WpaFamily(Upper(info));
  }

  /** A descriptor made only of whitespace is not empty, so it falls through every
      test to CheckManually. */
  lemma BlankIsCheckManually(info: string)
    requires info != "" && forall k :: 0 <= k < |info| ==> IsSpace(info[k])
    ensures Assess(info) == CheckManually
  {
    var u := Upper(info);
    assert forall k :: 0 <= k < |u| ==> IsSpace(u[k]);
    assert !IsSpace('W') && !IsSpace('O');
    Absent(u, "WPA", 'W');
    Absent(u, "WEP", 'W');
    Absent(u, "OPEN", 'O');
    WpaFamily(u);
  }

  /** The recommendation and action lines `show_security_recommendations` can
      print, one constructor per line. */
  datatype Tip =
    | Maintain | UpgradeToWpa3 | CheckForWpa3 | UpgradeNow | ChangeEncryption
    | Critical | WepCracked | Dangerous | EnableEncryption | CheckSettings

  /** The two kinds of printed line. */
  predicate IsRecommendation(t: Tip) {
    t in {Maintain, UpgradeToWpa3, UpgradeNow, Critical, Dangerous, CheckSettings}
  }

  const RecommendationPrefix := "   \U{1F4A1} Recommendation: "
  const ActionPrefix := "   \U{1F527} Action: "

  /** The exact text of each line: its kind's prefix, then its message. */
  function Text(t: Tip): string {
    (if IsRecommendation(t) then RecommendationPrefix else ActionPrefix) + Message(t)
  }

  function Message(t: Tip): string {
    match t
    case Maintain => "Excellent! Maintain current settings"
    case UpgradeToWpa3 => "Good, but upgrade to WPA3 if available"
    case CheckForWpa3 => "Check router settings for WPA3 option"
    case UpgradeNow => "Upgrade to WPA2/WPA3 immediately"
    case ChangeEncryption => "Change encryption type in router settings"
    case Critical => "CRITICAL - Change immediately!"
    case WepCracked => "WEP can be cracked in minutes - upgrade to WPA2"
    case Dangerous => "EXTREMELY DANGEROUS!"
    case EnableEncryption => "Enable WPA2/WPA3 encryption with strong password"
    case CheckSettings => "Check router security settings"
  }

  /** Every branch prints one recommendation line; all but the WPA3 branch and the
      last one follow it with one action line. */
  lemma AdviceLines(securityType: string)
    ensures var a := Advice(securityType);
      && 1 <= |a| <= 2
      && StartsWith(Text(a[0]), RecommendationPrefix)
      && (|a| == 2 ==> StartsWith(Text(a[1]), ActionPrefix))
      && (|a| == 1 <==> a == Wpa3Advice || a == OtherAdvice)
  {
    AdviceFollowsLevel(securityType);
    LevelAdviceLines(Assess(securityType));
  }

  lemma LevelAdviceLines(l: Level)
    ensures var a := AdviceFor(l);
      && 1 <= |a| <= 2
      && StartsWith(Text(a[0]), RecommendationPrefix)
      && (|a| == 2 ==> StartsWith(Text(a[1]), ActionPrefix))
      && (|a| == 1 <==> a == Wpa3Advice || a == OtherAdvice)
  {
    var a := AdviceFor(l);
    assert 1 <= |a| <= 2 && IsRecommendation(a[0]) && (|a| == 2 ==> !IsRecommendation(a[1]));
    AdvicePrefixes(a);
  }

  /** A recommendation followed by at most one action prints as one "Recommendation:"
      line and, if there is a second, one "Action:" line. */
  lemma AdvicePrefixes(a: seq<Tip>)
    requires 1 <= |a| <= 2 && IsRecommendation(a[0]) && (|a| == 2 ==> !IsRecommendation(a[1]))
    ensures StartsWith(Text(a[0]), RecommendationPrefix)
    ensures |a| == 2 ==> StartsWith(Text(a[1]), ActionPrefix)
  {
    TipPrefix(a[0]);
    if |a| == 2 {
      TipPrefix(a[1]);
    }
  }

  /** Each line starts with the prefix of its kind. */
  lemma TipPrefix(t: Tip)
    ensures StartsWith(Text(t), if IsRecommendation(t) then RecommendationPrefix else ActionPrefix)
  {
    StartsWithAppend(if IsRecommendation(t) then RecommendationPrefix else ActionPrefix, Message(t));
  }

  /** The lines each branch prints. */
  const Wpa3Advice := [Maintain]
  const Wpa2Advice := [UpgradeToWpa3, CheckForWpa3]
  const WpaAdvice := [UpgradeNow, ChangeEncryption]
  const WepAdvice := [Critical, WepCracked]
  const OpenAdvice := [Dangerous, EnableEncryption]
  const OtherAdvice := [CheckSettings]

  /** `show_security_recommendations`, returning the lines it prints. Its chain has
      no AES test. */
  function Advice(securityType: string): seq<Tip> {
    var u := Upper(securityType);
    if Contains(u, "WPA3") then Wpa3Advice
    else if Contains(u, "WPA2") then Wpa2Advice
    else if Contains(u, "WPA") then WpaAdvice
    else if Contains(u, "WEP") then WepAdvice
    else if Contains(u, "OPEN") || u == "" then OpenAdvice
    else OtherAdvice
  }

  /** The advice each level calls for: one set of lines per level, with Good and
      Acceptable sharing the WPA2 upgrade advice. */
  function AdviceFor(l: Level): seq<Tip> {
    match l
    case Excellent => Wpa3Advice
    case Good | Acceptable => Wpa2Advice
    case NeedsUpgrade => WpaAdvice
    case ImmediatelyChange => WepAdvice
    case NoSecurity => OpenAdvice
    case CheckManually => OtherAdvice
  }

  /** The recommendations printed for a descriptor are those of the level it is
      assessed at. */
  lemma AdviceFollowsLevel(securityType: string)
    ensures Advice(securityType) == AdviceFor(Assess(securityType))
  {
  }

  /** The one asymmetry between the two chains: every WPA2 descriptor without WPA3,
      with or without AES, gets the two "upgrade to WPA3" lines, while its level is
      Good or Acceptable. */
  lemma Wpa2GetsUpgradeAdvice(securityType: string)
    requires Contains(Upper(securityType), "WPA2") && !Contains(Upper(securityType), "WPA3")
    ensures Advice(securityType) == Wpa2Advice
    ensures Assess(securityType) == Good || Assess(securityType) == Acceptable
  {
  }

  /** Advice ignores case like the classifier. */
  lemma AdviceIgnoresCase(securityType: string)
    ensures Advice(Upper(securityType)) == Advice(securityType)
  {
    UpperIdempotent(securityType);
  }

  /** `p` cannot occur in `s` when one of its characters is missing from `s`. */
  lemma Absent(s: string, p: string, c: char)
    requires c in p && c !in s
    ensures !Contains(s, p)
  {
    if Contains(s, p) {
      ContainsKeepsProperty(s, p, x => x != c);
    }
  }

  /** A descriptor without lower-case letters is its own upper-cased form. */
  lemma UpperOfUpperCase(s: string)
    requires forall k :: 0 <= k < |s| ==> !('a' <= s[k] <= 'z')
    ensures Upper(s) == s
  {
  }

  /** The priority case: "WEP WPA2" takes the WPA2 branch, not the WEP one. */
  lemma WepWpa2IsAcceptable()
    ensures Assess("WEP WPA2") == Acceptable
  {
    UpperOfUpperCase("WEP WPA2");
    WepWpa2Tokens();
  }

  /** Only ASCII letters change case: "ß" stays as it is, so "wpa2 aeß" lacks AES
      and is Acceptable (Python spells it "SS" and would find AES). */
  lemma SharpSIsAcceptable()
    ensures Upper("wpa2 aeß") == "WPA2 AEß"
    ensures Assess("wpa2 aeß") == Acceptable
  {
    assert Upper("wpa2 aeß") == "WPA2 AEß";
    SharpSTokens();
  }

  lemma SharpSTokens()
    ensures !Contains("WPA2 AEß", "WPA3") && !Contains("WPA2 AEß", "AES")
    ensures Contains("WPA2 AEß", "WPA2")
  {
    LacksWpa3AndAes("WPA2 AEß");
    assert "WPA2 AEß"[0..][..4] == "WPA2";
    ContainsAt("WPA2 AEß", "WPA2", 0);
  }

  lemma WepWpa2Tokens()
    ensures !Contains("WEP WPA2", "WPA3") && !Contains("WEP WPA2", "AES")
    ensures Contains("WEP WPA2", "WPA2")
  {
    LacksWpa3AndAes("WEP WPA2");
    assert "WEP WPA2"[4..][..4] == "WPA2";
    ContainsAt("WEP WPA2", "WPA2", 4);
  }

  /** A descriptor without a '3' or an 'S' holds neither WPA3 nor AES. */
  lemma LacksWpa3AndAes(s: string)
    requires forall k :: 0 <= k < |s| ==> s[k] != '3' && s[k] != 'S'
    ensures !Contains(s, "WPA3") && !Contains(s, "AES")
  {
    Absent(s, "WPA3", '3');
    Absent(s, "AES", 'S');
  }

  /** The empty descriptor is NoSecurity. */
  lemma EmptyIsNoSecurity()
    ensures Assess("") == NoSecurity
  {
  }

  /** A non-empty descriptor naming none of WPA, WEP and OPEN is CheckManually. */
  lemma NoKnownTokenIsCheckManually(info: string)
    requires info != ""
    requires !Contains(Upper(info), "WPA") && !Contains(Upper(info), "WEP")
    requires !Contains(Upper(info), "OPEN")
    ensures Assess(info) == CheckManually
  {
    WpaFamily(Upper(info));
  }

  /** The security column "Unknown" given to a hidden network is CheckManually. */
  lemma UnknownIsCheckManually()
    ensures Assess("Unknown") == CheckManually
  {
    assert Upper("Unknown") == "UNKNOWN";
    UnknownLacksTokens();
    NoKnownTokenIsCheckManually("Unknown");
  }

  lemma UnknownLacksTokens()
    ensures !Contains("UNKNOWN", "WPA") && !Contains("UNKNOWN", "WEP")
    ensures !Contains("UNKNOWN", "OPEN")
  {
    Absent("UNKNOWN", "WPA", 'P');
    Absent("UNKNOWN", "WEP", 'P');
    Absent("UNKNOWN", "OPEN", 'P');
  }
}
