/** Password resets (backend/controllers/passwordReset.controller.js): the
    hexadecimal token, the reset record with its one-hour expiry and `used`
    flag, the request with its rollback when the email fails, verification,
    and the reset itself. The random bytes, the clock, bcrypt and the EmailJS
    post are inputs; records are identified by an id that the store never
    reuses while they exist. */
module PasswordResets {
  import opened Text
  import opened Http
  import Users

  /** `crypto.randomBytes(32)` */
  const TokenBytes: nat := 32
  /** One hour in milliseconds. */
  const Lifetime: int := 3600000

  datatype ResetRecord = ResetRecord(id: nat, userId: nat, token: string, expiresAt: int, used: bool)

  type ResetStore = seq<ResetRecord>

  /** `generateToken`: the random bytes in lower-case hexadecimal. */
  function GenerateToken(random: seq<byte>): (t: string)
    requires |random| == TokenBytes
    ensures |t| == 2 * TokenBytes
    ensures forall i :: 0 <= i < |t| ==> IsHexDigit(t[i])
  {
    HexEncode(random)
  }

  /** The token determines the bytes it was made from. */
  lemma TokenDecodes(random: seq<byte>)
    requires |random| == TokenBytes
    ensures HexDecode(GenerateToken(random)) == Some(random)
  {
    HexRoundTrip(random);
  }

  /** The condition `{ token, used: false, expiresAt: { $gt: now } }`. */
  predicate Accepts(r: ResetRecord, token: string, now: int)
  {
    r.token == token && !r.used && r.expiresAt > now
  }

  /** `PasswordReset.findOne` with that condition: the first match. */
  function FindValid(store: ResetStore, token: string, now: int): (r: Option<nat>)
    ensures r.Some? ==> r.value < |store| && Accepts(store[r.value], token, now)
    ensures r.None? <==> forall k :: 0 <= k < |store| ==> !Accepts(store[k], token, now)
  {
    if store == [] then None
    else if Accepts(store[0], token, now) then Some(0)
    else match FindValid(store[1..], token, now)
      case None => None
      case Some(k) => Some(k + 1)
  }

  /** A fresh id: one more than every id in the store. */
  function NextId(store: ResetStore): (n: nat)
    ensures forall k :: 0 <= k < |store| ==> store[k].id < n
  {
    if store == [] then 0
    else var m := NextId(store[..|store| - 1]);
      assert forall k :: 0 <= k < |store| - 1 ==> store[k] == store[..|store| - 1][k];
      if store[|store| - 1].id + 1 > m then store[|store| - 1].id + 1 else m
  }

  /** `findByIdAndDelete`: every record with that id removed. */
  function DeleteId(store: ResetStore, id: nat): (r: ResetStore)
    ensures forall k :: 0 <= k < |r| ==> r[k].id != id
    ensures forall x :: x in r <==> x in store && x.id != id
  {
    if store == [] then []
    else (if store[0].id == id then [] else [store[0]]) + DeleteId(store[1..], id)
  }

  /** Deleting an id no record has changes nothing. */
  lemma {:induction false} DeleteAbsentId(store: ResetStore, id: nat)
    requires forall k :: 0 <= k < |store| ==> store[k].id != id
    ensures DeleteId(store, id) == store
  {
    if store != [] {
      DeleteAbsentId(store[1..], id);
      assert [store[0]] + store[1..] == store;
    }
  }

  /** Deleting a record just appended under a fresh id gives back the store
      it was appended to. */
  lemma {:induction false} DeleteAppended(store: ResetStore, rec: ResetRecord)
    requires forall k :: 0 <= k < |store| ==> store[k].id != rec.id
    ensures DeleteId(store + [rec], rec.id) == store
  {
    if store == [] {
      assert [rec][1..] == [];
    } else {
      assert (store + [rec])[1..] == store[1..] + [rec];
      DeleteAppended(store[1..], rec);
      assert [store[0]] + store[1..] == store;
    }
  }

  /** The EmailJS settings of the reset email; unset is the empty string. */
  datatype ResetChannel = ResetChannel(serviceId: string, templateId: string, publicKey: string)

  predicate Complete(c: ResetChannel)
  {
    c.serviceId != [] && c.templateId != [] && c.publicKey != []
  }

  datatype ResetMail = ResetMail(email: string, link: string)

  const EmailRequiredMessage: string := "Email is required"
  const NoAccountMessage: string := "No account found with this email address"
  const ConfigMissingMessage: string := "Email service configuration is missing"
  const SendFailedMessage: string := "Failed to send reset email"
  const LinkSentMessage: string := "Password reset link sent to your email"
  const InvalidLinkMessage: string := "Invalid or expired reset link"
  const ValidTokenMessage: string := "Valid reset token"
  const ResetDoneMessage: string := "Password reset successful"
  const ResetFailedMessage: string := "Failed to reset password"

  /** The link in the reset email. */
  function ResetLink(frontendUrl: string, token: string): string
  {
    frontendUrl + "/reset-password/" + token
  }

  datatype RequestResult = RequestResult(store: ResetStore, reply: Reply, mail: Option<ResetMail>)

  /** `requestPasswordReset`: `random` is what `randomBytes` produced, `now`
      the clock, `delivered` whether the EmailJS post succeeded. `mail` is
      the email that was attempted. */
  function RequestReset(users: Users.UserStore, store: ResetStore, email: string, random: seq<byte>,
                        now: int, frontendUrl: string, channel: ResetChannel, delivered: bool): RequestResult
    requires |random| == TokenBytes
  {
    if email == [] then RequestResult(store, Fail(400, EmailRequiredMessage), None)
    else match Users.FindByEmail(users, email)
      case None => RequestResult(store, Fail(404, NoAccountMessage), None)
      case Some(u) =>
        var token := GenerateToken(random);
        var rec := ResetRecord(NextId(store), u, token, now + Lifetime, false);
        var mail := ResetMail(email, ResetLink(frontendUrl, token));
        if !Complete(channel) then RequestResult(store + [rec], Fail(500, ConfigMissingMessage), None)
        else if !delivered then RequestResult(DeleteId(store + [rec], rec.id), Fail(500, SendFailedMessage), Some(mail))
        else RequestResult(store + [rec], Ok(200, LinkSentMessage), Some(mail))
  }

  /** Without an email, or for an unknown one, no record is created. */
  lemma RequestRefused(users: Users.UserStore, store: ResetStore, email: string, random: seq<byte>,
                       now: int, frontendUrl: string, channel: ResetChannel, delivered: bool)
    requires |random| == TokenBytes
    requires email == [] || Users.FindByEmail(users, email).None?
    ensures var r := RequestReset(users, store, email, random, now, frontendUrl, channel, delivered);
      && r.store == store && r.mail.None?
      && r.reply == (if email == [] then Fail(400, EmailRequiredMessage) else Fail(404, NoAccountMessage))
  {
  }

  /** For a known email: one record is added for that user, unused, expiring
      an hour from now and valid at once; a failed email removes it again,
      leaving the store as it was; a missing configuration leaves it in
      place. The mailed link ends with the token. */
  lemma RequestCreates(users: Users.UserStore, store: ResetStore, email: string, random: seq<byte>,
                       now: int, frontendUrl: string, channel: ResetChannel, delivered: bool)
    requires |random| == TokenBytes
    requires email != [] && Users.FindByEmail(users, email).Some?
    ensures var r := RequestReset(users, store, email, random, now, frontendUrl, channel, delivered);
      var u := Users.FindByEmail(users, email).value;
      var rec := ResetRecord(NextId(store), u, GenerateToken(random), now + Lifetime, false);
      && users[u].email == email
      && Accepts(rec, GenerateToken(random), now)
      && (!Complete(channel) ==> r.store == store + [rec] && r.reply == Fail(500, ConfigMissingMessage) && r.mail.None?)
      && (Complete(channel) && !delivered ==> r.store == store && r.reply == Fail(500, SendFailedMessage))
      && (Complete(channel) && delivered ==> r.store == store + [rec] && r.reply == Ok(200, LinkSentMessage))
      && (Complete(channel) ==> r.mail == Some(ResetMail(email, ResetLink(frontendUrl, GenerateToken(random)))))
  {
    var rec := ResetRecord(NextId(store), Users.FindByEmail(users, email).value, GenerateToken(random), now + Lifetime, false);
    DeleteAppended(store, rec);
  }

  /** A record is accepted strictly before its expiry and not at it. */
  lemma ExpiryIsStrict(r: ResetRecord, now: int)
    requires !r.used
    ensures Accepts(r, r.token, now) <==> now < r.expiresAt
    ensures !Accepts(r, r.token, r.expiresAt)
  {
  }

  /** `verifyResetToken`; it returns no new store. */
  function VerifyToken(store: ResetStore, token: string, now: int): (r: Reply)
    ensures r.success <==> exists k :: 0 <= k < |store| && Accepts(store[k], token, now)
  {
    if FindValid(store, token, now).Some? then Ok(200, ValidTokenMessage) else Fail(400, InvalidLinkMessage)
  }

  datatype ResetResult = ResetResult(users: Users.UserStore, store: ResetStore, reply: Reply)

  /** `resetPassword`: `password` is `None` when the body has none (bcrypt
      then throws), `hashed` is what bcrypt returned for it. A record whose
      user no longer exists is still marked used. */
  function ResetPassword(users: Users.UserStore, store: ResetStore, token: string, password: Option<string>,
                         hashed: string, now: int): ResetResult
  {
    match FindValid(store, token, now)
    case None => ResetResult(users, store, Fail(400, InvalidLinkMessage))
    case Some(k) =>
      if password.None? then ResetResult(users, store, Fail(500, ResetFailedMessage))
      else
        var u := store[k].userId;
        var users' := if u < |users| then users[u := users[u].(passwordHash := hashed)] else users;
        ResetResult(users', store[k := store[k].(used := true)], Ok(200, ResetDoneMessage))
  }

  /** A rejected token changes nothing; an accepted one sets only its user's
      password hash and marks only its record used. */
  lemma ResetEffects(users: Users.UserStore, store: ResetStore, token: string, password: Option<string>,
                     hashed: string, now: int)
    ensures var r := ResetPassword(users, store, token, password, hashed, now);
      && (r.reply.success <==> password.Some? && exists k :: 0 <= k < |store| && Accepts(store[k], token, now))
      && (!r.reply.success ==> r.users == users && r.store == store)
      && (r.reply.success ==>
            var k := FindValid(store, token, now).value;
            && |r.store| == |store|
            && r.store[k] == store[k].(used := true)
            && (forall j :: 0 <= j < |store| && j != k ==> r.store[j] == store[j])
            && |r.users| == |users|
            && (forall j :: 0 <= j < |users| && j != store[k].userId ==> r.users[j] == users[j])
            && (store[k].userId < |users| ==>
                  r.users[store[k].userId] == users[store[k].userId].(passwordHash := hashed)))
  {
  }

  /** No two records share a token. */
  ghost predicate TokensUnique(store: ResetStore)
  {
    forall i, j :: 0 <= i < j < |store| ==> store[i].token != store[j].token
  }

  /** With tokens unique, a token that has reset a password is never
      accepted again, by verification or by another reset. */
  lemma ResetIsSingleUse(users: Users.UserStore, store: ResetStore, token: string, password: Option<string>,
                         hashed: string, now: int, later: int, password2: Option<string>, hashed2: string)
    requires TokensUnique(store)
    ensures var r := ResetPassword(users, store, token, password, hashed, now);
      r.reply.success ==>
        && !VerifyToken(r.store, token, later).success
        && ResetPassword(r.users, r.store, token, password2, hashed2, later).reply == Fail(400, InvalidLinkMessage)
  {
    var r := ResetPassword(users, store, token, password, hashed, now);
    if r.reply.success {
      var k := FindValid(store, token, now).value;
      forall j | 0 <= j < |r.store| ensures !Accepts(r.store[j], token, later) {
        if j != k {
          assert r.store[j] == store[j];
          assert store[j].token != store[k].token;
        }
      }
    }
  }

  /** Requests keep tokens unique as long as the fresh token is not already
      stored. */
  lemma RequestKeepsTokensUnique(users: Users.UserStore, store: ResetStore, email: string, random: seq<byte>,
                                 now: int, frontendUrl: string, channel: ResetChannel, delivered: bool)
    requires |random| == TokenBytes
    requires TokensUnique(store)
    requires forall k :: 0 <= k < |store| ==> store[k].token != GenerateToken(random)
    ensures TokensUnique(RequestReset(users, store, email, random, now, frontendUrl, channel, delivered).store)
  {
    if email != [] && Users.FindByEmail(users, email).Some? {
      RequestCreates(users, store, email, random, now, frontendUrl, channel, delivered);
    }
  }

  /** Resets keep tokens unique: they only mark a record used. */
  lemma ResetKeepsTokensUnique(users: Users.UserStore, store: ResetStore, token: string, password: Option<string>,
                               hashed: string, now: int)
    requires TokensUnique(store)
    ensures TokensUnique(ResetPassword(users, store, token, password, hashed, now).store)
  {
    var r := ResetPassword(users, store, token, password, hashed, now);
    ResetEffects(users, store, token, password, hashed, now);
    assert forall j :: 0 <= j < |r.store| ==> r.store[j].token == store[j].token;
  }
}
