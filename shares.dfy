// Share links (share_links.json): createShareLink, getShareRecord,
// getAllShareLinks and deleteShareLink. The random token and the password
// hash come from outside; the clock is `env.now`.

module Shares {
  import opened PhpStrings
  import opened Validators
  import opened Store

  /** A link is expired once its expiry lies strictly before `now`. */
  predicate Expired(link: Share, now: int) {
    link.expires < now
  }

  /** The links that survive the clean-up at `now`. */
  function Unexpired(shares: map<string, Share>, now: int): map<string, Share> {
    map t | t in shares && !Expired(shares[t], now) :: shares[t]
  }

  /** The clean-up loop of createShareLink: unset every expired link. */
  method PurgeExpired(shares: map<string, Share>, now: int) returns (kept: map<string, Share>)
    ensures kept == Unexpired(shares, now)
    ensures forall t :: t in kept ==> !Expired(kept[t], now)
  {
    kept := shares;
    var todo := shares.Keys;
    while todo != {}
      invariant todo <= shares.Keys
      invariant forall t :: t in kept <==> t in shares && (t in todo || !Expired(shares[t], now))
      invariant forall t :: t in kept ==> kept[t] == shares[t]
      decreases |todo|
    {
      var t :| t in todo;
      if shares[t].expires < now {
        kept := kept - {t};
      }
      todo := todo - {t};
    }
  }

  /** The password field of a new link: "" for a falsy password. */
  function PasswordOf(password: string): Password {
    if Falsy(password) then NoPassword else Hashed(password)
  }

  /** The record createShareLink stores. */
  function NewLink(env: Env, folder: string, file: string, seconds: int, password: string): Share {
    Share(folder, file, env.now + seconds, PasswordOf(password))
  }

  /** What `createShareLink` leaves behind and returns: the token and the expiry. */
  function CreateOutcome(s: State, env: Env, folder: string, file: string, seconds: int, password: string)
    : (State, Result<(string, int)>)
  {
    if !IsRootAnyCase(folder) && !FolderNameOk(folder) then (s, Err(Problem(InvalidFolder, folder)))
    else if SharesDoc in env.unwritable then (s, Err(Problem(MetadataWriteFailed, SharesDoc)))
    else
      (s.(shares := Unexpired(s.shares, env.now)[env.token := NewLink(env, folder, file, seconds, password)]),
       Ok((env.token, env.now + seconds)))
  }

  /** `createShareLink`: validate the folder, drop the expired links, add
      the new one under the token, and write the ledger. */
  method CreateShareLink(s: State, env: Env, folder: string, file: string, seconds: int, password: string)
    returns (s': State, r: Result<(string, int)>)
    ensures (s', r) == CreateOutcome(s, env, folder, file, seconds, password)
    ensures r.Ok? <==> (IsRootAnyCase(folder) || FolderNameOk(folder)) && SharesDoc !in env.unwritable
    ensures r.Err? ==> s' == s
    ensures r.Ok? ==>
      && r.value == (env.token, env.now + seconds)
      && s' == s.(shares := s'.shares)
      && env.token in s'.shares && s'.shares[env.token] == NewLink(env, folder, file, seconds, password)
      && (forall t :: t in s'.shares && t != env.token ==>
            t in s.shares && s'.shares[t] == s.shares[t] && !Expired(s.shares[t], env.now))
      && (forall t :: t in s.shares && t != env.token && !Expired(s.shares[t], env.now) ==> t in s'.shares)
  {
    if !IsRootAnyCase(folder) && !FolderNameOk(folder) {
      return s, Err(Problem(InvalidFolder, folder));
    }
    var kept := PurgeExpired(s.shares, env.now);
    var links := kept[env.token := NewLink(env, folder, file, seconds, password)];
    if SharesDoc in env.unwritable {
      return s, Err(Problem(MetadataWriteFailed, SharesDoc));
    }
    s' := s.(shares := links);
    r := Ok((env.token, env.now + seconds));
  }

  /** `getShareRecord`: the record stored under the token, if any. */
  function GetShareRecord(s: State, token: string): (r: Option<Share>)
    ensures r.Some? <==> token in s.shares
    ensures r.Some? ==> r.value == s.shares[token]
  {
    if token in s.shares then Some(s.shares[token]) else None
  }

  /** `getAllShareLinks`: the whole ledger, each record as getShareRecord
      returns it. */
  function GetAllShareLinks(s: State): (r: map<string, Share>)
    ensures forall t :: t in r ==> GetShareRecord(s, t) == Some(r[t])
    ensures forall t :: GetShareRecord(s, t).Some? ==> t in r
  {
    s.shares
  }

  /** `deleteShareLink`: true when the token existed. The ledger write
      follows and its failure is ignored. */
  function DeleteShareLink(s: State, env: Env, token: string): (r: (State, bool))
    ensures r.1 <==> token in s.shares
    ensures !r.1 || SharesDoc in env.unwritable ==> r.0 == s
    ensures r.1 && SharesDoc !in env.unwritable ==>
      && r.0 == s.(shares := r.0.shares)
      && token !in r.0.shares
      && forall t :: t != token ==> (t in r.0.shares <==> t in s.shares) && (t in s.shares ==> r.0.shares[t] == s.shares[t])
  {
    if token !in s.shares then (s, false)
    else if SharesDoc in env.unwritable then (s, true)
    else (s.(shares := s.shares - {token}), true)
  }

  // ------------------------------------------------------------- lemmas

  /** The link just created can be looked up by its token, with the expiry
      `now + seconds` and an empty password exactly when none was given. */
  lemma CreatedLinkResolves(s: State, env: Env, folder: string, file: string, seconds: int, password: string)
    requires CreateOutcome(s, env, folder, file, seconds, password).1.Ok?
    ensures var s' := CreateOutcome(s, env, folder, file, seconds, password).0;
      var rec := GetShareRecord(s', env.token);
      && rec.Some? && rec.value.folder == folder && rec.value.file == file
      && rec.value.expires == env.now + seconds
      && (rec.value.password == NoPassword <==> Falsy(password))
  {
  }

  /** A link created already expired (a negative lifetime) is gone after the
      next successful createShareLink, at the same time or later, for a
      different token. */
  lemma ExpiredLinkPurgedByNextCreate(s: State, env: Env, folder: string, file: string, password: string,
                                      env2: Env, folder2: string, file2: string, seconds2: int, password2: string)
    requires CreateOutcome(s, env, folder, file, -1, password).1.Ok?
    requires env2.now >= env.now && env2.token != env.token
    requires var s1 := CreateOutcome(s, env, folder, file, -1, password).0;
      CreateOutcome(s1, env2, folder2, file2, seconds2, password2).1.Ok?
    ensures var s1 := CreateOutcome(s, env, folder, file, -1, password).0;
      var s2 := CreateOutcome(s1, env2, folder2, file2, seconds2, password2).0;
      GetShareRecord(s2, env.token) == None
  {
    var s1 := CreateOutcome(s, env, folder, file, -1, password).0;
    assert s1.shares[env.token].expires == env.now - 1;
    assert Expired(s1.shares[env.token], env2.now);
  }

  /** Deleting a link makes it unresolvable, and a second delete of the same
      token reports false. */
  lemma DeleteThenResolve(s: State, env: Env, token: string)
    requires token in s.shares && SharesDoc !in env.unwritable
    ensures var s' := DeleteShareLink(s, env, token).0;
      GetShareRecord(s', token) == None && DeleteShareLink(s', env, token) == (s', false)
  {
  }

  /** Deleting one token leaves every other lookup as it was. */
  lemma DeleteKeepsOtherLinks(s: State, env: Env, token: string, other: string)
    requires other != token
    ensures GetShareRecord(DeleteShareLink(s, env, token).0, other) == GetShareRecord(s, other)
  {
  }
}
