/**
 * The two decisions the adapter takes before it talks to Google: which client secret in
 * credentials.json to use (`loadCredentials`), and what to do with a stored token
 * (`loadOrGetToken`). Reading and parsing the files, the OAuth calls and the clock are inputs.
 */
module Auth {
  import opened Wrappers

  /** The three fields copied out of an `installed` or `web` entry. */
  datatype ClientSecret = ClientSecret(
    clientId: Option<string>,
    clientSecret: Option<string>,
    redirectUris: Option<seq<string>>)

  /** The parsed credentials.json: each entry is present or not. */
  datatype CredentialsFile = CredentialsFile(installed: Option<ClientSecret>, web: Option<ClientSecret>)

  const InvalidFormat: string := "Invalid credentials format"

  function LoadFailure(reason: string): string {
    "Failed to load credentials: " + reason + ". Please ensure credentials.json exists in the project root."
  }

  /**
   * `loadCredentials`: `file` is the parsed file, or the message of the read or parse error.
   * A desktop (`installed`) entry is preferred over a `web` one; a file with neither is an
   * error, and every error comes back wrapped in the same advice.
   */
  function LoadCredentials(file: Result<CredentialsFile, string>): (r: Result<ClientSecret, string>)
    ensures file.Success? && file.value.installed.Some? ==> r == Success(file.value.installed.value)
    ensures file.Success? && file.value.installed.None? && file.value.web.Some? ==> r == Success(file.value.web.value)
    ensures file.Success? && file.value.installed.None? && file.value.web.None? ==> r == Failure(LoadFailure(InvalidFormat))
    ensures file.Failure? ==> r == Failure(LoadFailure(file.error))
  {
    match file
    case Failure(e) => Failure(LoadFailure(e))
    case Success(doc) =>
      if doc.installed.Some? then Success(doc.installed.value)
      else if doc.web.Some? then Success(doc.web.value)
      else Failure(LoadFailure(InvalidFormat))
  }

  /** Loading succeeds exactly when the file was read and has an `installed` or a `web` entry. */
  lemma LoadCredentialsSucceeds(file: Result<CredentialsFile, string>)
    ensures LoadCredentials(file).Success? <==>
      file.Success? && (file.value.installed.Some? || file.value.web.Some?)
    ensures LoadCredentials(file).Success? ==>
      Some(LoadCredentials(file).value) in {file.value.installed, file.value.web}
  {
  }

  /** What the token file holds, as far as the decision goes. */
  datatype StoredToken = StoredToken(expiryDate: Option<int>)

  /**
   * `token.expiry_date && token.expiry_date <= Date.now()`: a stored token is stale when it
   * has an expiry date that is not 0 (0 is false in JavaScript) and that date has passed.
   */
  predicate IsStale(t: StoredToken, now: int) {
    t.expiryDate.Some? && t.expiryDate.value != 0 && t.expiryDate.value <= now
  }

  /** The steps `loadOrGetToken` takes, in order. */
  datatype TokenFlow = TokenFlow(storedInstalled: bool, refreshed: bool, obtainedNew: bool)

  /**
   * `loadOrGetToken`: `stored` is the parsed token file, or None when it cannot be read or
   * parsed; `refreshOk` says whether a refresh would succeed. A stored token is installed;
   * a stale one is refreshed; any failure on the way (no file, a failed refresh) falls back
   * to obtaining a new token.
   */
  function LoadOrGetToken(stored: Option<StoredToken>, now: int, refreshOk: bool): (r: TokenFlow)
    ensures r.storedInstalled <==> stored.Some?
    ensures r.refreshed <==> stored.Some? && IsStale(stored.value, now) && refreshOk
    ensures r.obtainedNew <==> stored.None? || (IsStale(stored.value, now) && !refreshOk)
    ensures stored.Some? && !IsStale(stored.value, now) ==> !r.refreshed && !r.obtainedNew
  {
    match stored
    case None => TokenFlow(false, false, true)
    case Some(t) =>
      if IsStale(t, now) then
        if refreshOk then TokenFlow(true, true, false) else TokenFlow(true, false, true)
      else TokenFlow(true, false, false)
  }

  /** A token with expiry date 0 is never refreshed, however late it is. */
  lemma ZeroExpiryNeverStale(now: int)
    ensures !IsStale(StoredToken(Some(0)), now)
    ensures LoadOrGetToken(Some(StoredToken(Some(0))), now, true) == TokenFlow(true, false, false)
  {
  }

  /** Once stale, a token stays stale as time goes on; a token fresh now was fresh before. */
  lemma StalenessIsMonotone(t: StoredToken, now: int, later: int)
    requires now <= later
    ensures IsStale(t, now) ==> IsStale(t, later)
    ensures !IsStale(t, later) ==> !IsStale(t, now)
  {
  }
}
