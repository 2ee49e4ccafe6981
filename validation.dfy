/**
 * The write-time checks of the secret store: `validate_site_name`,
 * `validate_secret` and `is_valid_base32`. Each check tries its rules in a
 * fixed order and reports only the first one that fails. The regular
 * expressions of the source are written out as character-class predicates.
 */
module Validation {
  import opened Results
  import opened Text

  /** The input a validation error is about. */
  datatype Field = SiteNameField | SecretField {
    /** The field name the error carries; the two fields have different names. */
    function Name(): (n: string)
      ensures n == "site_name" <==> this == SiteNameField
      ensures n == "secret" <==> this == SecretField
    {
      match this
      case SiteNameField => "site_name"
      case SecretField => "secret"
    }
  }

  /** The rule a validation error reports; `Text` gives the message it carries. */
  datatype Message =
    | SiteNameEmpty
    | SiteNameTooLong
    | SiteNameBadChars
    | SecretEmpty
    | SecretNotBase32
    | SecretTooShort
    | SiteNameTaken(siteName: string)
  {
    /**
     * The message text, character for character. The uniqueness message
     * quotes the refused name right after its fixed prefix.
     */
    function Text(): (t: string)
      ensures t != []
      ensures SiteNameTaken? ==> |t| == |TakenPrefix| + |siteName| + |TakenSuffix|
      ensures SiteNameTaken? ==> t[|TakenPrefix|..|TakenPrefix| + |siteName|] == siteName
    {
      match this
      case SiteNameEmpty => "Site name cannot be empty"
      case SiteNameTooLong => "Site name must be 100 characters or less"
      case SiteNameBadChars => "Site name can only contain alphanumeric characters, hyphens, dots, and underscores"
      case SecretEmpty => "Secret cannot be empty"
      case SecretNotBase32 => "Secret must be a valid Base32 string"
      case SecretTooShort => "Secret should be at least 16 characters long for security"
      case SiteNameTaken(name) =>
        var t := TakenPrefix + name + TakenSuffix;
        assert t[|TakenPrefix|..|TakenPrefix| + |name|] == name;
        t
    }
  }

  const TakenPrefix := "Site name '"
  const TakenSuffix := "' already exists"

  /** Which input was refused, and why. */
  datatype ValidationError = ValidationError(field: Field, message: Message)

  /** The longest site name accepted, in UTF-8 bytes. */
  const MaxSiteNameBytes := 100

  /** The shortest secret accepted, in UTF-8 bytes. */
  const MinSecretBytes := 16

  /** The character class `[a-zA-Z0-9\-._]`. */
  predicate IsSiteNameChar(c: char) {
    'a' <= c <= 'z' || 'A' <= c <= 'Z' || '0' <= c <= '9' || c == '-' || c == '.' || c == '_'
  }

  /** Whole-string match of `^[a-zA-Z0-9\-._]+$`: one or more characters, all in the class. */
  predicate MatchesSiteNamePattern(s: string) {
    |s| >= 1 && forall i :: 0 <= i < |s| ==> IsSiteNameChar(s[i])
  }

  /** `validate_site_name`: not blank, then at most 100 bytes, then only allowed characters. */
  function ValidateSiteName(name: string): (r: Outcome<ValidationError>)
    ensures r.Fail? ==> r.error.field == SiteNameField
  {
    if Trim(name) == [] then Fail(ValidationError(SiteNameField, SiteNameEmpty))
    else if ByteLen(name) > MaxSiteNameBytes then Fail(ValidationError(SiteNameField, SiteNameTooLong))
    else if !MatchesSiteNamePattern(name) then Fail(ValidationError(SiteNameField, SiteNameBadChars))
    else Pass
  }

  /**
   * The three site-name rules as a decision list: each error is reported
   * exactly when its rule fails and every earlier rule holds, and the name
   * passes exactly when all three hold.
   */
  lemma SiteNameRuleOrder(name: string)
    ensures ValidateSiteName(name) == Fail(ValidationError(SiteNameField, SiteNameEmpty)) <==>
                  AllWhitespace(name)
    ensures ValidateSiteName(name) == Fail(ValidationError(SiteNameField, SiteNameTooLong)) <==>
                  !AllWhitespace(name) && ByteLen(name) > MaxSiteNameBytes
    ensures ValidateSiteName(name) == Fail(ValidationError(SiteNameField, SiteNameBadChars)) <==>
                  !AllWhitespace(name) && ByteLen(name) <= MaxSiteNameBytes && !MatchesSiteNamePattern(name)
    ensures ValidateSiteName(name) == Pass <==>
                  !AllWhitespace(name) && ByteLen(name) <= MaxSiteNameBytes && MatchesSiteNamePattern(name)
  {
    TrimEmptyIffAllWhitespace(name);
  }

  /**
   * A site name is accepted exactly when it matches `^[a-zA-Z0-9\-._]+$` and
   * has at most 100 characters; such a name is ASCII, so its bytes are its characters.
   */
  lemma SiteNameAcceptedIff(name: string)
    ensures ValidateSiteName(name).Pass? ==> MatchesSiteNamePattern(name) && |name| <= MaxSiteNameBytes
    ensures MatchesSiteNamePattern(name) && |name| <= MaxSiteNameBytes ==> ValidateSiteName(name).Pass?
    ensures ValidateSiteName(name).Pass? ==> IsAscii(name) && ByteLen(name) == |name|
  {
    if MatchesSiteNamePattern(name) {
      SiteNamePatternIsAscii(name);
    }
  }

  /**
   * Every character of the site-name class is ASCII and none is whitespace,
   * so a matching name has one byte per character and is not blank.
   */
  lemma SiteNamePatternIsAscii(name: string)
    requires MatchesSiteNamePattern(name)
    ensures IsAscii(name) && ByteLen(name) == |name|
    ensures !AllWhitespace(name) && Trim(name) != []
  {
    ByteLenAscii(name);
    TrimEmptyIffAllWhitespace(name);
    assert IsSiteNameChar(name[0]);
    assert name[0] as int < 0x80 && !IsWhitespace(name[0]);
    forall i | 0 <= i < |name|
      ensures name[i] as int < 0x80
    {
      assert IsSiteNameChar(name[i]);
    }
  }

  /**
   * Length is counted in bytes and checked before the character class: 51
   * copies of U+00E9 are 102 bytes, so the length error is the one reported.
   */
  lemma MultiByteNameHitsLengthRule()
    ensures ValidateSiteName(seq(51, _ => 0xE9 as char))
         == Fail(ValidationError(SiteNameField, SiteNameTooLong))
  {
    var name := seq(51, _ => 0xE9 as char);
    RepeatedByteLen(0xE9 as char, 51);
    assert !IsWhitespace(name[0]);
    SiteNameRuleOrder(name);
  }

  /** The character class `[A-Z2-7]`: the Base32 alphabet of section 6 of RFC 4648. */
  predicate IsBase32Char(c: char) {
    'A' <= c <= 'Z' || '2' <= c <= '7'
  }

  /** The length of the longest prefix of `s` made of Base32 alphabet characters. */
  function Base32Run(s: string): (k: nat)
    ensures k <= |s|
  {
    if s != [] && IsBase32Char(s[0]) then 1 + Base32Run(s[1..]) else 0
  }

  /** The scan stops at the first character outside the alphabet, or at the end. */
  lemma {:induction false} Base32RunSpec(s: string)
    ensures forall i :: 0 <= i < Base32Run(s) ==> IsBase32Char(s[i])
    ensures Base32Run(s) < |s| ==> !IsBase32Char(s[Base32Run(s)])
  {
    if s != [] && IsBase32Char(s[0]) {
      Base32RunSpec(s[1..]);
    }
  }

  /** Whole-string match of `^[A-Z2-7]+=*$`, scanning greedily: alphabet characters, then only '='. */
  predicate MatchesBase32Pattern(s: string) {
    var k := Base32Run(s);
    k >= 1 && forall i :: k <= i < |s| ==> s[i] == '='
  }

  /** The first `k` characters of `s` are alphabet characters and the rest are '='. */
  predicate RunThenPads(s: string, k: nat) {
    k <= |s| && (forall i :: 0 <= i < k ==> IsBase32Char(s[i])) && (forall i :: k <= i < |s| ==> s[i] == '=')
  }

  /** `s` splits at `k` into one or more alphabet characters followed by '=' characters only. */
  predicate SplitsAt(s: string, k: nat) {
    1 <= k && RunThenPads(s, k)
  }

  /** The strings `^[A-Z2-7]+=*$` denotes: one or more alphabet characters followed by zero or more '='. */
  ghost predicate InBase32Language(s: string) {
    exists k :: SplitsAt(s, k)
  }

  /** Where alphabet characters are followed only by '=', the greedy scan stops exactly at the split. */
  lemma {:induction false} RunThenPadsScan(s: string, k: nat)
    requires RunThenPads(s, k)
    ensures Base32Run(s) == k
  {
    if k == 0 {
      if s != [] {
        assert s[0] == '=';
      }
    } else {
      assert IsBase32Char(s[0]);
      assert RunThenPads(s[1..], k - 1);
      RunThenPadsScan(s[1..], k - 1);
    }
  }

  /** The greedy scan accepts exactly the strings of the pattern's language. */
  lemma Base32PatternMatchesLanguage(s: string)
    ensures MatchesBase32Pattern(s) <==> InBase32Language(s)
  {
    var run := Base32Run(s);
    if MatchesBase32Pattern(s) {
      Base32RunSpec(s);
      assert SplitsAt(s, run);
    }
    if InBase32Language(s) {
      var k: nat :| SplitsAt(s, k);
      RunThenPadsScan(s, k);
    }
  }

  /**
   * `is_valid_base32`: the pattern matches and the byte length is a multiple
   * of 8. A string of the pattern is ASCII, so this is the pattern's
   * language with a character count that is a multiple of 8.
   */
  function IsValidBase32(s: string): (b: bool)
    ensures b <==> InBase32Language(s) && |s| % 8 == 0
  {
    Base32PatternMatchesLanguage(s);
    if MatchesBase32Pattern(s) then
      Base32LanguageAscii(s);
      ByteLen(s) % 8 == 0
    else false
  }

  /**
   * A string of the pattern's language is ASCII (one byte per character),
   * not blank, and holds no lower-case letter.
   */
  lemma Base32LanguageAscii(s: string)
    requires InBase32Language(s)
    ensures IsAscii(s) && ByteLen(s) == |s|
    ensures !AllWhitespace(s)
    ensures forall i :: 0 <= i < |s| ==> !('a' <= s[i] <= 'z')
  {
    var k: nat :| SplitsAt(s, k);
    ByteLenAscii(s);
    forall i | 0 <= i < |s|
      ensures s[i] as int < 0x80 && !('a' <= s[i] <= 'z')
    {
      if i < k {
        assert IsBase32Char(s[i]);
      } else {
        assert s[i] == '=';
      }
    }
    assert IsBase32Char(s[0]);
  }

  /** `validate_secret`: not blank, then Base32 in shape, then at least 16 bytes. */
  function ValidateSecret(secret: string): (r: Outcome<ValidationError>)
    ensures r.Fail? ==> r.error.field == SecretField
  {
    if Trim(secret) == [] then Fail(ValidationError(SecretField, SecretEmpty))
    else if !IsValidBase32(secret) then Fail(ValidationError(SecretField, SecretNotBase32))
    else if ByteLen(secret) < MinSecretBytes then Fail(ValidationError(SecretField, SecretTooShort))
    else Pass
  }

  /**
   * The three secret rules as a decision list: each error is reported
   * exactly when its rule fails and every earlier rule holds.
   */
  lemma SecretRuleOrder(secret: string)
    ensures ValidateSecret(secret) == Fail(ValidationError(SecretField, SecretEmpty)) <==>
                  AllWhitespace(secret)
    ensures ValidateSecret(secret) == Fail(ValidationError(SecretField, SecretNotBase32)) <==>
                  !AllWhitespace(secret) && !(InBase32Language(secret) && |secret| % 8 == 0)
    ensures ValidateSecret(secret) == Fail(ValidationError(SecretField, SecretTooShort)) <==>
                  InBase32Language(secret) && |secret| % 8 == 0 && |secret| < MinSecretBytes
  {
    TrimEmptyIffAllWhitespace(secret);
    if InBase32Language(secret) {
      Base32LanguageAscii(secret);
    }
  }

  /**
   * A secret is accepted exactly when it matches `^[A-Z2-7]+=*$` and its
   * length is a multiple of 8 and at least 16; in particular it holds no
   * lower-case letter.
   */
  lemma SecretAcceptedIff(secret: string)
    ensures ValidateSecret(secret) == Pass <==>
                  InBase32Language(secret) && |secret| % 8 == 0 && |secret| >= MinSecretBytes
    ensures ValidateSecret(secret) == Pass ==>
                  forall i :: 0 <= i < |secret| ==> !('a' <= secret[i] <= 'z')
  {
    TrimEmptyIffAllWhitespace(secret);
    if InBase32Language(secret) {
      Base32LanguageAscii(secret);
    }
  }

  /** A blank name is refused as empty. */
  lemma EmptyNameExample()
    ensures ValidateSiteName("") == Fail(ValidationError(SiteNameField, SiteNameEmpty))
  {
  }

  /** A name of 101 characters is refused as too long. */
  lemma LongNameExample()
    ensures ValidateSiteName(seq(101, _ => 'a')) == Fail(ValidationError(SiteNameField, SiteNameTooLong))
  {
    var long := seq(101, _ => 'a');
    RepeatedByteLen('a', 101);
    TrimEmptyIffAllWhitespace(long);
    assert !IsWhitespace(long[0]);
  }

  /** A name with a space and '!' is refused for its characters. */
  lemma BadCharsNameExample()
    ensures ValidateSiteName("bad name!") == Fail(ValidationError(SiteNameField, SiteNameBadChars))
  {
    var name := "bad name!";
    TrimEmptyIffAllWhitespace(name);
    assert !IsWhitespace(name[0]);
    assert !IsSiteNameChar(name[3]);
  }

  /** A dotted, hyphenated name is accepted. */
  lemma GoodNameExample()
    ensures ValidateSiteName("github.com-2") == Pass
  {
    var name := "github.com-2";
    forall i | 0 <= i < |name|
      ensures IsSiteNameChar(name[i])
    {
    }
    SiteNameAcceptedIff(name);
  }

  /** A lower-case secret is refused as not Base32. */
  lemma LowerCaseSecretExample()
    ensures ValidateSecret("short") == Fail(ValidationError(SecretField, SecretNotBase32))
  {
    var secret := "short";
    TrimEmptyIffAllWhitespace(secret);
    assert !IsWhitespace(secret[0]);
    assert Base32Run(secret) == 0;
  }

  /** An aligned secret of only 8 characters is refused as too short. */
  lemma ShortSecretExample()
    ensures ValidateSecret("ABCDEFGH") == Fail(ValidationError(SecretField, SecretTooShort))
  {
    var secret := "ABCDEFGH";
    assert SplitsAt(secret, 8);
    SecretRuleOrder(secret);
  }

  /** Sixteen 'A's, a Base32 secret of the minimum length, are accepted. */
  lemma GoodSecretExample()
    ensures ValidateSecret(seq(16, _ => 'A')) == Pass
  {
    var secret := seq(16, _ => 'A');
    assert SplitsAt(secret, 16);
    SecretAcceptedIff(secret);
  }
}
