/**
 * The secret store of `DynamoDBRepository`: a table keyed by site name whose
 * items hold one Base32 secret each. The table is the map `table`; the
 * DynamoDB client, its network calls and their failures are not part of this
 * model, so every call reaches the table and runs to completion alone.
 */
module Repository {
  import opened Results
  import opened Validation

  /** What `get_secret` hands back for a stored site: its secret. */
  datatype TotpEntry = TotpEntry(secret: string)

  /** The uniqueness error: a `site_name` error whose message quotes the refused name. */
  function AlreadyExists(siteName: string): (e: ValidationError)
    ensures e.field == SiteNameField
    ensures e.field.Name() == "site_name"
    ensures |e.message.Text()| == |TakenPrefix| + |siteName| + |TakenSuffix|
    ensures e.message.Text()[|TakenPrefix|..|TakenPrefix| + |siteName|] == siteName
  {
    ValidationError(SiteNameField, SiteNameTaken(siteName))
  }

  /**
   * The outcome of `save_secret` on a table: the site name is validated, then
   * the secret, then the name is looked up, and the first failure is the
   * result.
   */
  function SaveOutcome(table: map<string, string>, siteName: string, secret: string): (r: Outcome<ValidationError>)
    ensures r.Fail? ==> r.error.field == SiteNameField || r.error.field == SecretField
    ensures r.Pass? ==> ValidateSiteName(siteName).Pass? && ValidateSecret(secret).Pass? && siteName !in table
    ensures r.Fail? && r.error.field == SecretField ==> ValidateSiteName(siteName).Pass?
  {
    var nameCheck := ValidateSiteName(siteName);
    if nameCheck.Fail? then nameCheck
    else
      var secretCheck := ValidateSecret(secret);
      if secretCheck.Fail? then secretCheck
      else if siteName in table then Fail(AlreadyExists(siteName))
      else Pass
  }

  /**
   * The table after `save_secret`: the new item is put only when every check
   * passed. Saving never changes or removes a stored entry: every site already
   * in the table keeps its secret, the only key that can appear is the saved
   * one, with the saved secret, and the table is unchanged exactly when the
   * save is refused.
   */
  function SavedTable(table: map<string, string>, siteName: string, secret: string): (after: map<string, string>)
    ensures forall k :: k in table ==> k in after && after[k] == table[k]
    ensures forall k :: k in after && k !in table ==> k == siteName && after[k] == secret
    ensures after == table <==> SaveOutcome(table, siteName, secret).Fail?
  {
    if SaveOutcome(table, siteName, secret).Pass? then
      assert siteName in table[siteName := secret];
      table[siteName := secret]
    else table
  }

  /**
   * A save is accepted exactly when the name matches `^[a-zA-Z0-9\-._]+$`
   * within 100 characters, the secret matches `^[A-Z2-7]+=*$` with a length
   * that is a multiple of 8 and at least 16, and the name is not stored yet.
   */
  lemma SaveAcceptedIff(table: map<string, string>, siteName: string, secret: string)
    ensures SaveOutcome(table, siteName, secret).Pass? <==>
              MatchesSiteNamePattern(siteName) && |siteName| <= MaxSiteNameBytes &&
              InBase32Language(secret) && |secret| % 8 == 0 && |secret| >= MinSecretBytes &&
              siteName !in table
  {
    SiteNameAcceptedIff(siteName);
    SecretAcceptedIff(secret);
  }

  /**
   * Both validators run before the lookup: for invalid input the outcome is
   * the validator's error, whatever the table holds, and the lookup's error
   * is reported only for valid input.
   */
  lemma ValidationBeforeLookup(table: map<string, string>, other: map<string, string>, siteName: string, secret: string)
    ensures ValidateSiteName(siteName).Fail? ==> SaveOutcome(table, siteName, secret) == ValidateSiteName(siteName)
    ensures ValidateSiteName(siteName).Pass? && ValidateSecret(secret).Fail? ==>
              SaveOutcome(table, siteName, secret) == ValidateSecret(secret)
    ensures ValidateSiteName(siteName).Fail? || ValidateSecret(secret).Fail? ==>
              SaveOutcome(table, siteName, secret) == SaveOutcome(other, siteName, secret)
    ensures SaveOutcome(table, siteName, secret) == Fail(AlreadyExists(siteName)) <==>
              ValidateSiteName(siteName).Pass? && ValidateSecret(secret).Pass? && siteName in table
  {
  }

  /** Every stored site name and secret would pass the validators. */
  predicate EntriesValid(table: map<string, string>) {
    forall k :: k in table ==> ValidateSiteName(k).Pass? && ValidateSecret(table[k]).Pass?
  }

  /** Writing only through `save_secret` keeps every entry valid. */
  lemma SaveKeepsEntriesValid(table: map<string, string>, siteName: string, secret: string)
    requires EntriesValid(table)
    ensures EntriesValid(SavedTable(table, siteName, secret))
  {
    var after := SavedTable(table, siteName, secret);
    forall k | k in after
      ensures ValidateSiteName(k).Pass? && ValidateSecret(after[k]).Pass?
    {
      if k != siteName || siteName in table {
        assert k in table;
      }
    }
  }

  /** No element of `s` occurs twice. */
  predicate NoDuplicates(s: seq<string>) {
    forall i, j :: 0 <= i < j < |s| ==> s[i] != s[j]
  }

  /** The repository over a DynamoDB table with partition key `site_name` and attribute `secret`. */
  class DynamoDBRepository {
    /** The items of the table: site name to secret. */
    var table: map<string, string>

    /** A repository over a table that already holds `contents`. */
    constructor(contents: map<string, string>)
      ensures table == contents
    {
      table := contents;
    }

    /**
     * `save_secret`: validate both inputs, check the name is not taken, then
     * put the item. On any error the table is unchanged; on success exactly
     * the new entry is added.
     */
    method SaveSecret(siteName: string, secret: string) returns (r: Outcome<ValidationError>)
      modifies this
      ensures r == SaveOutcome(old(table), siteName, secret)
      ensures table == SavedTable(old(table), siteName, secret)
      ensures EntriesValid(old(table)) ==> EntriesValid(table)
    {
      ghost var before := table;
      r := ValidateSiteName(siteName);
      if r.Fail? {
        return;
      }
      r := ValidateSecret(secret);
      if r.Fail? {
        return;
      }
      r := CheckSiteNameUniqueness(siteName);
      if r.Fail? {
        return;
      }
      table := table[siteName := secret];
      if EntriesValid(before) {
        SaveKeepsEntriesValid(before, siteName, secret);
      }
    }

    /** `check_site_name_uniqueness`: an error exactly when the name is stored. */
    method CheckSiteNameUniqueness(siteName: string) returns (r: Outcome<ValidationError>)
      ensures r.Pass? <==> siteName !in table
      ensures r.Fail? ==> r.error == AlreadyExists(siteName)
    {
      if siteName in table {
        return Fail(AlreadyExists(siteName));
      }
      return Pass;
    }

    /**
     * `delete_secret`: remove the item without checking that it exists, so
     * deleting an absent site succeeds and changes nothing.
     */
    method DeleteSecret(siteName: string)
      modifies this
      ensures table == old(table) - {siteName}
      ensures siteName !in old(table) ==> table == old(table)
      ensures EntriesValid(old(table)) ==> EntriesValid(table)
    {
      table := table - {siteName};
    }

    /** `get_secret`: the stored secret of the site, or None when the site is not stored. */
    method GetSecret(siteName: string) returns (r: Option<TotpEntry>)
      ensures r.Some? <==> siteName in table
      ensures r.Some? ==> r.value.secret == table[siteName]
    {
      if siteName in table {
        return Some(TotpEntry(table[siteName]));
      }
      return None;
    }

    /** `list_sites`: every stored site name once, in the order the scan yields them. */
    method ListSites() returns (sites: seq<string>)
      ensures forall s :: s in sites <==> s in table
      ensures NoDuplicates(sites)
    {
      sites := [];
      var unscanned := table.Keys;
      while unscanned != {}
        invariant unscanned <= table.Keys
        invariant forall s :: s in sites ==> s in table && s !in unscanned
        invariant forall s :: s in table ==> s in sites || s in unscanned
        invariant NoDuplicates(sites)
        decreases |unscanned|
      {
        var s :| s in unscanned;
        sites := sites + [s];
        unscanned := unscanned - {s};
      }
    }
  }
}
