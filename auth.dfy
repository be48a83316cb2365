/**
 * The admin allowlist check. The sign-in provider's session and user record
 * are inputs: the caller's user id, if signed in, and the first email address
 * on the user record, if any. The `ADMIN_EMAILS` environment variable is an
 * input too (None when it is unset).
 */
module Auth {
  import opened Wrappers
  import opened Strings

  /** Who is calling, as the sign-in provider reports it. */
  datatype Caller = Caller(userId: Option<string>, firstEmail: Option<string>)

  /** The two errors `requireAdmin` throws. */
  datatype AuthError = Unauthorized | Forbidden

  /** The admitted caller: the user id and the lower-cased email that matched. */
  datatype Admin = Admin(userId: string, email: string)

  /** The `message` of the thrown error. */
  function ErrorMessage(e: AuthError): string {
    match e
    case Unauthorized => "Unauthorized"
    case Forbidden => "Forbidden: Admin access required"
  }

  /** `process.env.ADMIN_EMAILS || ''`. */
  function EnvText(env: Option<string>): string {
    if env.Some? && env.value != "" then env.value else ""
  }

  /** One allowlist entry as written in the variable, trimmed and lower-cased. */
  function NormaliseEntry(entry: string): string {
    Lower(Trim(entry))
  }

  /**
   * `ADMIN_EMAILS`: the variable split on ',' with each piece trimmed and
   * lower-cased, in order. Every entry is lower-case, holds no comma, and has
   * no white space at either end.
   */
  function AdminEmails(env: Option<string>): (emails: seq<string>)
    ensures |emails| == |Split(EnvText(env), ',')|
    ensures forall i :: 0 <= i < |emails| ==> Lower(emails[i]) == emails[i] && ',' !in emails[i]
    ensures forall i :: 0 <= i < |emails| ==> emails[i] == "" || (!IsWhiteSpace(emails[i][0]) && !IsWhiteSpace(emails[i][|emails[i]| - 1]))
  {
    var pieces := Split(EnvText(env), ',');
    var emails := seq(|pieces|, i requires 0 <= i < |pieces| => NormaliseEntry(pieces[i]));
    assert forall i :: 0 <= i < |emails| ==> EntryShape(emails[i]) by {
      forall i | 0 <= i < |emails| ensures EntryShape(emails[i]) {
        NormalisedEntryShape(pieces[i]);
      }
    }
    emails
  }

  /** What a normalised entry looks like: lower-case, free of commas, with no white space at either end. */
  predicate EntryShape(e: string) {
    && Lower(e) == e
    && ',' !in e
    && (e == "" || (!IsWhiteSpace(e[0]) && !IsWhiteSpace(e[|e| - 1])))
  }

  /** Trimming and lower-casing a piece without commas gives an entry of that shape. */
  lemma NormalisedEntryShape(piece: string)
    requires ',' !in piece
    ensures EntryShape(NormaliseEntry(piece))
  {
    var t := Trim(piece);
    var i, j := TrimIsInnerSlice(piece);
    assert ',' !in t by {
      forall k | 0 <= k < |t| ensures t[k] != ',' { assert t[k] == piece[i + k]; }
    }
    LoweredShape(t);
  }

  /** Lower-casing keeps a text free of commas and of white space at its ends, and is then final. */
  lemma LoweredShape(t: string)
    requires ',' !in t
    requires t == "" || (!IsWhiteSpace(t[0]) && !IsWhiteSpace(t[|t| - 1]))
    ensures EntryShape(Lower(t))
  {
    LowerIdempotent(t);
    var e := Lower(t);
    assert ',' !in e by {
      forall k | 0 <= k < |e| ensures e[k] != ',' { assert e[k] == LowerChar(t[k]); }
    }
    if e != "" {
      assert e[0] == LowerChar(t[0]) && e[|e| - 1] == LowerChar(t[|t| - 1]);
    }
  }

  /** The allowlist has one entry per piece of the variable, and holds exactly the normalised pieces. */
  lemma AdminEmailsEntries(env: Option<string>)
    ensures |AdminEmails(env)| == |Split(EnvText(env), ',')|
    ensures forall e :: e in AdminEmails(env) <==> exists p :: p in Split(EnvText(env), ',') && NormaliseEntry(p) == e
  {
    var pieces := Split(EnvText(env), ',');
    var emails := AdminEmails(env);
    assert forall i :: 0 <= i < |emails| ==> emails[i] == NormaliseEntry(pieces[i]);
    forall p | p in pieces ensures NormaliseEntry(p) in emails {
      var i :| 0 <= i < |pieces| && pieces[i] == p;
      assert emails[i] == NormaliseEntry(p);
    }
    forall e | e in emails ensures exists p :: p in pieces && NormaliseEntry(p) == e {
      var i :| 0 <= i < |emails| && emails[i] == e;
      assert pieces[i] in pieces;
    }
  }

  /**
   * `requireAdmin`: no user id fails with Unauthorized before the email is
   * looked at; then the first email, lower-cased, must be present, non-empty
   * and in the allowlist, or the call fails with Forbidden.
   */
  function RequireAdmin(caller: Caller, env: Option<string>): (r: Result<Admin, AuthError>)
    ensures r.Failure? && r.error == Unauthorized <==> caller.userId.None? || caller.userId.value == ""
    ensures r.Success? ==>
      && caller.userId.Some? && r.value.userId == caller.userId.value
      && caller.firstEmail.Some? && r.value.email == Lower(caller.firstEmail.value)
      && r.value.email != "" && r.value.email in AdminEmails(env)
    ensures caller.userId.Some? && caller.userId.value != "" && caller.firstEmail.Some?
            && Lower(caller.firstEmail.value) != "" && Lower(caller.firstEmail.value) in AdminEmails(env)
            ==> r.Success?
  {
    if caller.userId.None? || caller.userId.value == "" then Failure(Unauthorized)
    else
      var email := if caller.firstEmail.Some? then Some(Lower(caller.firstEmail.value)) else None;
      if email.None? || email.value == "" || email.value !in AdminEmails(env) then Failure(Forbidden)
      else Success(Admin(caller.userId.value, email.value))
  }

  /**
   * `isAdmin`: true exactly when `requireAdmin` would return, false on either
   * error (what that means for the caller is `AdmittedExactly`).
   */
  predicate IsAdmin(caller: Caller, env: Option<string>)
  {
    RequireAdmin(caller, env).Success?
  }

  /**
   * The caller is admitted exactly when signed in with a non-empty first email
   * that equals, ignoring ASCII case, a trimmed piece of the variable.
   */
  lemma AdmittedExactly(caller: Caller, env: Option<string>)
    ensures IsAdmin(caller, env) <==>
      && caller.userId.Some? && caller.userId.value != ""
      && caller.firstEmail.Some? && caller.firstEmail.value != ""
      && exists p :: p in Split(EnvText(env), ',') && Lower(Trim(p)) == Lower(caller.firstEmail.value)
  {
    if caller.userId.Some? && caller.userId.value != "" && caller.firstEmail.Some? {
      var e := caller.firstEmail.value;
      LowerIdempotent(e);
      AdminEmailsEntries(env);
      var emails := AdminEmails(env);
      assert IsAdmin(caller, env) <==> Lower(e) != "" && Lower(e) in emails;
      assert Lower(e) in emails <==> exists p :: p in Split(EnvText(env), ',') && NormaliseEntry(p) == Lower(e);
    }
  }

  /** Matching ignores ASCII case: two callers whose emails differ only in case get the same answer. */
  lemma CaseInsensitive(userId: Option<string>, a: string, b: string, env: Option<string>)
    requires SameIgnoringCase(a, b)
    ensures RequireAdmin(Caller(userId, Some(a)), env) == RequireAdmin(Caller(userId, Some(b)), env)
  {
  }

  /** When the variable is unset or empty the allowlist is the single entry "", and nobody is admitted. */
  lemma UnsetAllowlistAdmitsNobody(caller: Caller, env: Option<string>)
    requires env.None? || env.value == ""
    ensures AdminEmails(env) == [""]
    ensures !IsAdmin(caller, env)
  {
    assert Split("", ',') == [""];
    assert Trim("") == "";
    assert Lower("") == "";
  }

  /** A caller without an email, or with the empty one, is Forbidden even though the allowlist may hold "". */
  lemma MissingEmailForbidden(userId: string, email: Option<string>, env: Option<string>)
    requires userId != ""
    requires email.None? || email.value == ""
    ensures RequireAdmin(Caller(Some(userId), email), env) == Failure(Forbidden)
  {
  }

  /** An allowlist of one address admits that address in any letter case, and with surrounding white space in the variable. */
  lemma SingleEntryAdmits(entry: string, userId: string, email: string)
    requires ',' !in entry && userId != "" && email != ""
    requires SameIgnoringCase(Trim(entry), email)
    ensures IsAdmin(Caller(Some(userId), Some(email)), Some(entry))
  {
    LowerIdempotent(email);
    assert EnvText(Some(entry)) == entry;
    SplitWithoutSeparator(entry, ',');
    var emails := AdminEmails(Some(entry));
    assert emails[0] == NormaliseEntry(entry) == Lower(email);
  }
}
