/**
 * The TOTP master-secret transition of secret_mgr.rs: a state machine that moves
 * one step at every server start. The cipher and the hash are parameters.
 */
module Totp {
  import opened Common
  import opened Text

  const SECRET_LIMIT: nat := 0x1_0000_0000_0000_0000_0000_0000_0000_0000
  const AES_KEY_BYTES: nat := 16
  const AES_IV_BYTES: nat := 12
  const AES_TAG_BYTES: nat := 12
  const SALT_BYTES: nat := 16

  type Blob = seq<byte>

  /** The library calls: `None` is an error, `parseHex` is `BigUint::parse_bytes(_, 16)`. */
  datatype Crypto = Crypto(
    parseHex: string -> Option<nat>,
    encrypt: (seq<byte>, seq<byte>, Blob) -> Option<(Blob, seq<byte>)>,
    decrypt: (seq<byte>, seq<byte>, seq<byte>, Blob) -> Option<Blob>,
    hash: (string, seq<byte>) -> Option<string>,
    verify: (string, string) -> Option<bool>)

  /** Decryption undoes encryption; a digest verifies the text it was made from and no other. */
  ghost predicate Lawful(c: Crypto) {
    && (forall key, iv, data: Blob :: c.encrypt(key, iv, data).Some? ==>
          var out := c.encrypt(key, iv, data).value;
          |out.1| == AES_TAG_BYTES && c.decrypt(key, iv, out.1, out.0) == Some(data))
    && (forall text, salt :: c.hash(text, salt).Some? ==> c.verify(text, c.hash(text, salt).value) == Some(true))
    && (forall a, b, digest :: c.verify(a, digest) == Some(true) && c.verify(b, digest) == Some(true) ==> a == b)
  }

  // ---------------------------------------------------------------------
  // Secrets: numbers, their hex text and their AES key
  // ---------------------------------------------------------------------

  datatype StartError =
    | InvalidConfig | InvalidDigest | NotTheOldSecret | MissingOldSecret | CannotDecrypt
    | EncryptFailed | HashFailed | RolledBack | CommitOutcomeUnknown

  function ParseSecret(c: Crypto, raw: string): (r: Result<Option<nat>, StartError>)
    ensures r.Ok? && r.value.Some? ==> r.value.value < SECRET_LIMIT
  {
    if raw == "" then Ok(None)
    else
      match c.parseHex(raw)
      case None => Err(InvalidConfig)
      case Some(value) => Ok(Some(if value >= SECRET_LIMIT then value % SECRET_LIMIT else value))
  }

  /** `to_str_radix(16).to_uppercase()` */
  function HexText(n: nat): (s: string)
    ensures |s| > 0 && AllHex(s)
  {
    if n < 16 then [HexDigit(n)] else HexText(n / 16) + [HexDigit(n % 16)]
  }

  lemma {:induction false} HexTextRoundTrip(n: nat)
    ensures HexNumber(HexText(n)) == n
  {
    var s := HexText(n);
    if n < 16 {
      assert s[..0] == [];
    } else {
      HexTextRoundTrip(n / 16);
      assert s[..|s| - 1] == HexText(n / 16);
    }
  }

  /** Upper-case digits, and no leading zero. */
  lemma {:induction false} HexTextIsCanonical(n: nat)
    ensures forall i :: 0 <= i < |HexText(n)| ==> '0' <= HexText(n)[i] <= '9' || 'A' <= HexText(n)[i] <= 'F'
    ensures n > 0 ==> HexText(n)[0] != '0'
  {
    if n >= 16 {
      HexTextIsCanonical(n / 16);
    }
  }

  lemma HexTextInjective(m: nat, n: nat)
    requires HexText(m) == HexText(n)
    ensures m == n
  {
    HexTextRoundTrip(m);
    HexTextRoundTrip(n);
  }

  /** `BigUint::to_bytes_le` */
  function LeBytes(n: nat): (b: seq<byte>)
    ensures |b| > 0
  {
    if n < 0x100 then [n] else [n % 0x100] + LeBytes(n / 0x100)
  }

  /** The zeroed key buffer with the leading little-endian bytes copied in. */
  function AesKey(n: nat): (key: seq<byte>)
    ensures |key| == AES_KEY_BYTES
  {
    var bytes := LeBytes(n);
    var copied := if |bytes| < AES_KEY_BYTES then |bytes| else AES_KEY_BYTES;
    bytes[..copied] + Zeros(AES_KEY_BYTES - copied)
  }

  function Pow256(k: nat): (p: nat)
    ensures p > 0
  {
    if k == 0 then 1 else 0x100 * Pow256(k - 1)
  }

  lemma {:induction false} ZerosAreZero(k: nat)
    ensures FromLe(Zeros(k)) == 0
  {
    if k > 0 {
      ZerosAreZero(k - 1);
      assert Zeros(k)[1..] == Zeros(k - 1);
    }
  }

  lemma ModOfProduct(n: nat, p: nat)
    requires p > 0
    ensures n % (0x100 * p) == n % 0x100 + 0x100 * ((n / 0x100) % p)
  {
    var q := n / 0x100;
    var high, low := q / p, q % p;
    assert q == high * p + low;
    assert n == 0x100 * q + n % 0x100;
    assert 0x100 * q == high * (0x100 * p) + 0x100 * low;
    QuotientIsUnique(n, 0x100 * p, high, n % 0x100 + 0x100 * low);
  }

  lemma QuotientIsUnique(n: nat, d: nat, q: nat, r: nat)
    requires d > 0 && r < d && n == q * d + r
    ensures n % d == r
  {
    var a, b := n / d, n % d;
    assert n == a * d + b;
    assert (a - q) * d == r - b;
    if a > q {
      MulAtLeast(a - q, d);
      assert false;
    } else if a < q {
      MulAtLeast(q - a, d);
      assert false;
    }
  }

  lemma MulAtLeast(k: nat, d: nat)
    requires k >= 1
    ensures k * d >= d
  {
  }

  lemma {:induction false} LowBytes(n: nat, k: nat)
    ensures var b := LeBytes(n); var t := (if |b| < k then |b| else k);
      FromLe(b[..t] + Zeros(k - t)) == n % Pow256(k)
  {
    var b := LeBytes(n);
    if k == 0 {
      assert b[..0] + Zeros(0) == [];
    } else if n < 0x100 {
      ZerosAreZero(k - 1);
      var key := [b[0]] + Zeros(k - 1);
      assert b[..1] + Zeros(k - 1) == key && key[1..] == Zeros(k - 1);
      assert Pow256(k) >= 0x100;
      QuotientIsUnique(n, Pow256(k), 0, n);
    } else {
      var rest := LeBytes(n / 0x100);
      var t := if |rest| < k - 1 then |rest| else k - 1;
      LowBytes(n / 0x100, k - 1);
      ModOfProduct(n, Pow256(k - 1));
      var key := b[..t + 1] + Zeros(k - 1 - t);
      assert key[1..] == rest[..t] + Zeros(k - 1 - t);
    }
  }

  lemma KeyLimit()
    ensures Pow256(AES_KEY_BYTES) == SECRET_LIMIT
  {
    assert Pow256(4) == 0x1_0000_0000;
    assert Pow256(8) == 0x1_0000_0000_0000_0000;
    assert Pow256(12) == 0x1_0000_0000_0000_0000_0000_0000;
  }

  /** The key holds the secret's low 128 bits, so it holds the whole secret exactly when the secret fits. */
  lemma AesKeyHoldsSecret(n: nat)
    ensures FromLe(AesKey(n)) == n % SECRET_LIMIT
    ensures FromLe(AesKey(n)) == n <==> n < SECRET_LIMIT
  {
    hide LeBytes, Zeros, FromLe, Pow256;
    LowBytes(n, AES_KEY_BYTES);
    KeyLimit();
    if n < SECRET_LIMIT {
      QuotientIsUnique(n, SECRET_LIMIT, 0, n);
    }
  }

  /** No text means no secret, unreadable text is refused, and a number is kept in its low 128 bits, whole if it fits. */
  lemma ConfiguredNumberIsKept(c: Crypto, raw: string)
    ensures raw == "" ==> ParseSecret(c, raw) == Ok(None)
    ensures raw != "" && c.parseHex(raw).None? ==> ParseSecret(c, raw) == Err(InvalidConfig)
    ensures raw != "" && c.parseHex(raw).Some? ==>
      var number, secret := c.parseHex(raw).value, ParseSecret(c, raw);
      && secret.Ok? && secret.value.Some?
      && FromLe(AesKey(secret.value.value)) == number % SECRET_LIMIT
      && (secret.value.value == number <==> number < SECRET_LIMIT)
  {
    if raw != "" && c.parseHex(raw).Some? {
      AesKeyHoldsSecret(ParseSecret(c, raw).value.value);
    }
  }

  /** Numbers that fit have the same key, or the same text to be hashed, only when they are equal. */
  lemma ConfiguredKeysAreFaithful(c: Crypto, a: string, b: string)
    requires a != "" && b != "" && c.parseHex(a).Some? && c.parseHex(b).Some?
    ensures ParseSecret(c, a).Ok? && ParseSecret(c, a).value.Some? && ParseSecret(c, b).Ok? && ParseSecret(c, b).value.Some?
    ensures var m, n := c.parseHex(a).value, c.parseHex(b).value;
      var s, t := ParseSecret(c, a).value.value, ParseSecret(c, b).value.value;
      && (AesKey(s) == AesKey(t) <==> m % SECRET_LIMIT == n % SECRET_LIMIT)
      && (HexText(s) == HexText(t) <==> m % SECRET_LIMIT == n % SECRET_LIMIT)
      && (m < SECRET_LIMIT && n < SECRET_LIMIT ==> (AesKey(s) == AesKey(t) <==> m == n))
  {
    hide LeBytes, AesKey, FromLe, HexText;
    ConfiguredNumberIsKept(c, a);
    ConfiguredNumberIsKept(c, b);
    var s, t := ParseSecret(c, a).value.value, ParseSecret(c, b).value.value;
    AesKeyHoldsSecret(s);
    AesKeyHoldsSecret(t);
    if HexText(s) == HexText(t) {
      HexTextInjective(s, t);
    }
  }

  // ---------------------------------------------------------------------
  // The stored form of one TOTP secret: ciphertext, IV, tag
  // ---------------------------------------------------------------------

  function Decrypted(c: Crypto, secret: nat, data: Blob): Option<Blob> {
    if |data| < AES_IV_BYTES + AES_TAG_BYTES then None
    else
      var tagAt := |data| - AES_TAG_BYTES;
      var ivAt := tagAt - AES_IV_BYTES;
      c.decrypt(AesKey(secret), data[ivAt..tagAt], data[tagAt..], data[..ivAt])
  }

  /** Ciphertext, IV and tag of one encryption, in this order. */
  ghost predicate IsSealed(c: Crypto, secret: nat, data: Blob, stored: Blob) {
    exists iv, body, tag :: |iv| == AES_IV_BYTES && stored == body + iv + tag
      && c.encrypt(AesKey(secret), iv, data) == Some((body, tag))
  }

  /** Encryption under this secret can fail. */
  ghost predicate EncryptionFails(c: Crypto, secret: nat) {
    exists iv, data: Blob :: |iv| == AES_IV_BYTES && c.encrypt(AesKey(secret), iv, data).None?
  }

  method EncryptTotpSecret(c: Crypto, data: Blob, secret: nat) returns (r: Result<Blob, StartError>)
    requires Lawful(c)
    ensures r.Ok? ==> IsSealed(c, secret, data, r.value) && Decrypted(c, secret, r.value) == Some(data)
    ensures r.Err? ==> r.error == EncryptFailed && EncryptionFails(c, secret)
  {
    var key := AesKey(secret);
    assert |Zeros(AES_IV_BYTES)| == AES_IV_BYTES;
    var iv: seq<byte> :| |iv| == AES_IV_BYTES;
    var sealed := c.encrypt(key, iv, data);
    if sealed.None? {
      return Err(EncryptFailed);
    }
    var (body, tag) := sealed.value;
    var out := body + iv;
    out := out + tag;
    assert out[|body|..|body| + AES_IV_BYTES] == iv && out[|body| + AES_IV_BYTES..] == tag && out[..|body|] == body;
    return Ok(out);
  }

  /** What is stored is read by its parts: the last 12 bytes are the tag, the 12 before them the IV. */
  lemma StoredFormIsSplit(c: Crypto, secret: nat, body: Blob, iv: seq<byte>, tag: seq<byte>)
    requires |iv| == AES_IV_BYTES && |tag| == AES_TAG_BYTES
    ensures Decrypted(c, secret, body + iv + tag) == c.decrypt(AesKey(secret), iv, tag, body)
  {
    var out := body + iv + tag;
    assert out[|body|..|body| + AES_IV_BYTES] == iv && out[|body| + AES_IV_BYTES..] == tag && out[..|body|] == body;
  }

  method DecryptTotpSecret(c: Crypto, data: Blob, secret: nat) returns (r: Option<Blob>)
    ensures r == Decrypted(c, secret, data)
  {
    if |data| < AES_IV_BYTES + AES_TAG_BYTES {
      return None;
    }
    var tagOffset := |data| - AES_TAG_BYTES;
    var ivOffset := tagOffset - AES_IV_BYTES;
    var tag := data[tagOffset..];
    var rest := data[..tagOffset];
    var iv := rest[ivOffset..];
    rest := rest[..ivOffset];
    assert iv == data[ivOffset..tagOffset] && rest == data[..ivOffset];
    return c.decrypt(AesKey(secret), iv, tag, rest);
  }

  // ---------------------------------------------------------------------
  // The database and its transactions
  // ---------------------------------------------------------------------

  datatype Db = Db(digest: Option<string>, accounts: map<uint32, Option<Blob>>)

  datatype Statement = UpdateTotp(account: uint32, blob: Blob) | DeleteDigest | InsertDigest(digest: string)

  /** `None` is a statement the database refuses: a second digest row for the same secret id. */
  function Apply(db: Db, s: Statement): Option<Db> {
    match s
    case UpdateTotp(account, blob) =>
      Some(if account in db.accounts then db.(accounts := db.accounts[account := Some(blob)]) else db)
    case DeleteDigest => Some(db.(digest := None))
    case InsertDigest(digest) => if db.digest.Some? then None else Some(db.(digest := Some(digest)))
  }

  function ApplyAll(db: Db, tx: seq<Statement>): Option<Db> {
    if tx == [] then Some(db)
    else
      match ApplyAll(db, tx[..|tx| - 1])
      case None => None
      case Some(mid) => Apply(mid, tx[|tx| - 1])
  }

  lemma ApplySnoc(db: Db, tx: seq<Statement>, s: Statement)
    requires ApplyAll(db, tx).Some?
    ensures ApplyAll(db, tx + [s]) == Apply(ApplyAll(db, tx).value, s)
  {
    assert (tx + [s])[..|tx|] == tx;
  }

  datatype CommitOutcome = Committed | DefinitelyRolledBack | OutcomeUnknown

  class LoginDatabase {
    var digest: Option<string>
    var accounts: map<uint32, Option<Blob>>

    ghost function State(): Db
      reads this
    {
      Db(digest, accounts)
    }

    /** All statements take effect or none does; a lost COMMIT reply does not say which. */
    method CommitTransaction(tx: seq<Statement>) returns (outcome: CommitOutcome)
      modifies this
      ensures outcome == Committed ==> ApplyAll(old(State()), tx) == Some(State())
      ensures outcome == DefinitelyRolledBack ==> State() == old(State())
      ensures outcome == OutcomeUnknown ==>
        State() == old(State()) || ApplyAll(old(State()), tx) == Some(State())
    {
      if tx == [] {
        return Committed;
      }
      var after := ApplyAll(Db(digest, accounts), tx);
      var applied: bool :| true;
      var answered: bool :| true;
      if after.None? {
        return DefinitelyRolledBack;
      }
      if applied {
        digest, accounts := after.value.digest, after.value.accounts;
        return if answered then Committed else OutcomeUnknown;
      }
      return if answered then DefinitelyRolledBack else OutcomeUnknown;
    }
  }

  // ---------------------------------------------------------------------
  // One start of the server
  // ---------------------------------------------------------------------

  datatype Config = Config(current: string, former: string)

  datatype Report = Report(present: bool, transitioned: bool)

  /** The digest is that of this secret. */
  ghost predicate Names(c: Crypto, digest: string, secret: nat) {
    c.verify(HexText(secret), digest) == Some(true)
  }

  /** What a stored blob means: itself, or its decryption under `secret`. */
  function Plain(c: Crypto, secret: Option<nat>, blob: Blob): Option<Blob> {
    match secret
    case None => Some(blob)
    case Some(n) => Decrypted(c, n, blob)
  }

  /** `None` when the stored digest cannot be parsed. */
  function DigestMatches(c: Crypto, digest: Option<string>, current: Option<nat>): Option<bool> {
    match (digest, current)
    case (None, None) => Some(true)
    case (Some(d), Some(s)) => c.verify(HexText(s), d)
    case _ => Some(false)
  }

  /** The old secret to decrypt with, once it has been checked against the digest. */
  function OldSecret(c: Crypto, digest: Option<string>, raw: string): Result<Option<nat>, StartError> {
    if digest.None? then Ok(None)
    else
      match ParseSecret(c, raw)
      case Err(e) => Err(e)
      case Ok(None) => Ok(None)
      case Ok(Some(s)) =>
        match c.verify(HexText(s), digest.value)
        case None => Err(InvalidDigest)
        case Some(ok) => if ok then Ok(Some(s)) else Err(NotTheOldSecret)
  }

  /** This account's blob was re-encrypted from `former` to `next`. */
  ghost predicate Moved(c: Crypto, former: Option<nat>, next: Option<nat>, before: Option<Blob>, after: Option<Blob>) {
    match (before, after)
    case (None, None) => true
    case (Some(a), Some(b)) => Plain(c, former, a).Some? && Plain(c, next, b) == Plain(c, former, a)
    case _ => false
  }

  /** Every account moved, and the digest now names the new secret. */
  ghost predicate Transitioned(c: Crypto, pre: Db, former: Option<nat>, next: Option<nat>, post: Db) {
    && post.accounts.Keys == pre.accounts.Keys
    && (forall id :: id in pre.accounts ==> Moved(c, former, next, pre.accounts[id], post.accounts[id]))
    && (pre.digest.Some? && former.None? ==> forall id :: id in pre.accounts ==> pre.accounts[id].None?)
    && post.digest.Some? == next.Some? && (next.Some? ==> Names(c, post.digest.value, next.value))
  }

  ghost predicate HasSecret(db: Db, id: uint32) {
    id in db.accounts && db.accounts[id].Some?
  }

  /** Every stored secret can be read with the old secret, if one is needed. */
  predicate CanMove(c: Crypto, db: Db, former: Option<nat>) {
    forall id :: id in db.accounts && db.accounts[id].Some? ==>
      (db.digest.Some? ==> former.Some?) && Plain(c, former, db.accounts[id].value).Some?
  }

  /** Hashing this secret can fail. */
  ghost predicate HashingFails(c: Crypto, secret: nat) {
    exists salt: seq<byte> :: |salt| == SALT_BYTES && c.hash(HexText(secret), salt).None?
  }

  ghost predicate TransitionStep(c: Crypto, pre: Db, former: Option<nat>, next: Option<nat>, failure: Option<StartError>, post: Db) {
    match failure
    case None => Transitioned(c, pre, former, next, post)
    case Some(e) =>
      && (post == pre || (e.CommitOutcomeUnknown? && Transitioned(c, pre, former, next, post)))
      && (e.MissingOldSecret? ==> pre.digest.Some? && former.None? && exists id :: HasSecret(pre, id))
      && (e.CannotDecrypt? ==> (
            && pre.digest.Some? && former.Some?
            && exists id :: HasSecret(pre, id) && Decrypted(c, former.value, pre.accounts[id].value).None?))
      && (e.EncryptFailed? ==> next.Some? && EncryptionFails(c, next.value))
      && (e.HashFailed? ==> next.Some? && HashingFails(c, next.value) && CanMove(c, pre, former))
      && (e.RolledBack? || e.CommitOutcomeUnknown? ==> CanMove(c, pre, former))
      && !e.InvalidConfig? && !e.InvalidDigest? && !e.NotTheOldSecret?
  }

  /** Everything one start may do to the database and report. */
  ghost predicate StartStep(c: Crypto, config: Config, pre: Db, r: Result<Report, StartError>, post: Db) {
    match ParseSecret(c, config.current)
    case Err(e) => r == Err(e) && post == pre
    case Ok(current) =>
      match DigestMatches(c, pre.digest, current)
      case None => r == Err(InvalidDigest) && post == pre
      case Some(true) => r == Ok(Report(current.Some?, false)) && post == pre
      case Some(false) =>
        match OldSecret(c, pre.digest, config.former)
        case Err(e) => r == Err(e) && post == pre
        case Ok(former) =>
          match r
          case Ok(report) => report == Report(current.Some?, true) && TransitionStep(c, pre, former, current, None, post)
          case Err(e) => TransitionStep(c, pre, former, current, Some(e), post)
  }

  /** The progress of the row loop: the transaction so far moves exactly the visited accounts. */
  ghost predicate MovedSoFar(c: Crypto, pre: Db, former: Option<nat>, next: Option<nat>, tx: seq<Statement>, todo: set<uint32>) {
    match ApplyAll(pre, tx)
    case None => false
    case Some(mid) =>
      && mid.digest == pre.digest && mid.accounts.Keys == pre.accounts.Keys && todo <= pre.accounts.Keys
      && (forall id :: id in pre.accounts && id in todo ==> mid.accounts[id] == pre.accounts[id])
      && (forall id :: id in pre.accounts && id !in todo ==> Moved(c, former, next, pre.accounts[id], mid.accounts[id]))
  }

  lemma MoveOne(c: Crypto, pre: Db, former: Option<nat>, next: Option<nat>, tx: seq<Statement>, todo: set<uint32>, id: uint32, blob: Blob)
    requires MovedSoFar(c, pre, former, next, tx, todo) && id in todo && HasSecret(pre, id)
    requires Moved(c, former, next, pre.accounts[id], Some(blob))
    ensures MovedSoFar(c, pre, former, next, tx + [UpdateTotp(id, blob)], todo - {id})
  {
    hide Moved, ApplyAll;
    ApplySnoc(pre, tx, UpdateTotp(id, blob));
    var before, after := ApplyAll(pre, tx).value, ApplyAll(pre, tx + [UpdateTotp(id, blob)]).value;
    assert after.accounts == before.accounts[id := Some(blob)];
    assert after.accounts.Keys == before.accounts.Keys;
  }

  lemma NothingMoved(c: Crypto, pre: Db, former: Option<nat>, next: Option<nat>)
    ensures MovedSoFar(c, pre, former, next, [], pre.accounts.Keys)
  {
  }

  lemma SkipNull(c: Crypto, pre: Db, former: Option<nat>, next: Option<nat>, tx: seq<Statement>, todo: set<uint32>, id: uint32)
    requires MovedSoFar(c, pre, former, next, tx, todo) && id in todo && pre.accounts[id].None?
    ensures MovedSoFar(c, pre, former, next, tx, todo - {id})
  {
    hide ApplyAll;
  }

  /** Decrypts and re-encrypts one stored secret. */
  method MoveBlob(c: Crypto, blob: Blob, hadOld: bool, former: Option<nat>, next: Option<nat>) returns (r: Result<Blob, StartError>)
    requires Lawful(c) && (former.Some? ==> hadOld)
    ensures r.Ok? ==> (hadOld ==> former.Some?) && Moved(c, former, next, Some(blob), Some(r.value))
    ensures r.Err? ==> r.error in {MissingOldSecret, CannotDecrypt, EncryptFailed}
    ensures r == Err(MissingOldSecret) ==> hadOld && former.None?
    ensures r == Err(CannotDecrypt) ==> former.Some? && Decrypted(c, former.value, blob).None?
    ensures r == Err(EncryptFailed) ==> next.Some? && EncryptionFails(c, next.value)
  {
    var totpSecret := blob;
    if hadOld {
      if former.None? {
        return Err(MissingOldSecret);
      }
      var plain := DecryptTotpSecret(c, totpSecret, former.value);
      if plain.None? {
        return Err(CannotDecrypt);
      }
      totpSecret := plain.value;
    }
    if next.Some? {
      totpSecret :- EncryptTotpSecret(c, totpSecret, next.value);
    }
    return Ok(totpSecret);
  }

  method HashSecretDigest(c: Crypto, secret: nat) returns (r: Result<string, StartError>)
    requires Lawful(c)
    ensures r.Ok? ==> Names(c, r.value, secret)
    ensures r.Err? ==> r.error == HashFailed && HashingFails(c, secret)
  {
    assert |Zeros(SALT_BYTES)| == SALT_BYTES;
    var salt: seq<byte> :| |salt| == SALT_BYTES;
    var hashed := c.hash(HexText(secret), salt);
    return if hashed.None? then Err(HashFailed) else Ok(hashed.value);
  }

  /** The digest statements that end the transaction. */
  lemma DigestMoves(c: Crypto, pre: Db, former: Option<nat>, next: Option<nat>, rows: seq<Statement>, tx: seq<Statement>, digest: string)
    requires MovedSoFar(c, pre, former, next, rows, {})
    requires pre.digest.Some? && former.None? ==> forall id :: id in pre.accounts ==> pre.accounts[id].None?
    requires next.Some? ==> Names(c, digest, next.value)
    requires tx == rows + (if pre.digest.Some? then [DeleteDigest] else []) + (if next.Some? then [InsertDigest(digest)] else [])
    ensures ApplyAll(pre, tx).Some? && Transitioned(c, pre, former, next, ApplyAll(pre, tx).value)
  {
    hide Moved, Names, ApplyAll;
    var cleared := rows + (if pre.digest.Some? then [DeleteDigest] else []);
    if pre.digest.Some? {
      ApplySnoc(pre, rows, DeleteDigest);
    } else {
      assert cleared == rows;
    }
    if next.Some? {
      ApplySnoc(pre, cleared, InsertDigest(digest));
    } else {
      assert tx == cleared;
    }
  }

  /** Once every row has been visited, every stored secret was readable. */
  lemma AllCanMove(c: Crypto, pre: Db, former: Option<nat>, next: Option<nat>, tx: seq<Statement>)
    requires MovedSoFar(c, pre, former, next, tx, {})
    requires pre.digest.Some? && former.None? ==> forall id :: id in pre.accounts ==> pre.accounts[id].None?
    ensures CanMove(c, pre, former)
  {
    hide Plain, ApplyAll;
    var mid := ApplyAll(pre, tx).value;
    assert forall id :: id in pre.accounts ==> Moved(c, former, next, pre.accounts[id], mid.accounts[id]);
  }

  method AttemptTransition(db: LoginDatabase, c: Crypto, next: Option<nat>, former: Option<nat>, hadOld: bool)
    returns (failure: Option<StartError>)
    requires Lawful(c) && hadOld == db.digest.Some? && (former.Some? ==> hadOld)
    modifies db
    ensures TransitionStep(c, old(db.State()), former, next, failure, db.State())
  {
    hide Moved, Names, Lawful, MovedSoFar, Transitioned, ApplyAll, CanMove, EncryptionFails, HashingFails;
    ghost var pre := db.State();
    var tx: seq<Statement> := [];
    var rows := db.accounts;
    var todo := rows.Keys;
    NothingMoved(c, pre, former, next);
    while todo != {}
      invariant db.State() == pre && rows == pre.accounts
      invariant MovedSoFar(c, pre, former, next, tx, todo)
      invariant hadOld && former.None? ==> forall id :: id in rows && id !in todo ==> rows[id].None?
      decreases todo
    {
      var id :| id in todo;
      if rows[id].Some? {
        assert HasSecret(pre, id);
        var moved := MoveBlob(c, rows[id].value, hadOld, former, next);
        if moved.Err? {
          return Some(moved.error);
        }
        MoveOne(c, pre, former, next, tx, todo, id, moved.value);
        tx := tx + [UpdateTotp(id, moved.value)];
      } else {
        SkipNull(c, pre, former, next, tx, todo, id);
      }
      todo := todo - {id};
    }
    AllCanMove(c, pre, former, next, tx);
    ghost var updates := tx;
    if hadOld {
      tx := tx + [DeleteDigest];
    }
    var digest := "";
    if next.Some? {
      var hashed := HashSecretDigest(c, next.value);
      if hashed.Err? {
        return Some(hashed.error);
      }
      digest := hashed.value;
      tx := tx + [InsertDigest(digest)];
    }
    DigestMoves(c, pre, former, next, updates, tx, digest);
    var outcome := db.CommitTransaction(tx);
    match outcome {
      case Committed => return None;
      case DefinitelyRolledBack => return Some(RolledBack);
      case OutcomeUnknown => return Some(CommitOutcomeUnknown);
    }
  }

  method InitializeTotpMasterSecret(db: LoginDatabase, c: Crypto, config: Config) returns (r: Result<Report, StartError>)
    requires Lawful(c)
    modifies db
    ensures StartStep(c, config, old(db.State()), r, db.State())
  {
    hide TransitionStep, Lawful;
    var current :- ParseSecret(c, config.current);
    var matches := DigestMatches(c, db.digest, current);
    if matches.None? {
      return Err(InvalidDigest);
    }
    if !matches.value {
      var oldSecret: Option<nat> := None;
      if db.digest.Some? {
        var maybeOld :- ParseSecret(c, config.former);
        if maybeOld.Some? {
          var verified := c.verify(HexText(maybeOld.value), db.digest.value);
          if verified.None? {
            return Err(InvalidDigest);
          }
          if !verified.value {
            return Err(NotTheOldSecret);
          }
        }
        oldSecret := maybeOld;
      }
      var failure := AttemptTransition(db, c, current, oldSecret, db.digest.Some?);
      if failure.Some? {
        return Err(failure.value);
      }
      return Ok(Report(current.Some?, true));
    }
    return Ok(Report(current.Some?, false));
  }

  // ---------------------------------------------------------------------
  // Safety over every run
  // ---------------------------------------------------------------------

  /** The secret the database is encrypted under, given that its digest names `secret`. */
  ghost predicate HoldsUnder(c: Crypto, db: Db, secret: Option<nat>, originals: map<uint32, Option<Blob>>) {
    && db.digest.Some? == secret.Some? && (secret.Some? ==> Names(c, db.digest.value, secret.value))
    && db.accounts.Keys == originals.Keys
    && forall id :: id in originals ==>
         (db.accounts[id].None? <==> originals[id].None?)
         && (originals[id].Some? ==> Plain(c, secret, db.accounts[id].value) == originals[id])
  }

  /** The stored digest names the key under which every blob still decrypts to its original. */
  ghost predicate Consistent(c: Crypto, db: Db, originals: map<uint32, Option<Blob>>) {
    exists secret :: HoldsUnder(c, db, secret, originals)
  }

  lemma NamedSecretIsUnique(c: Crypto, digest: string, m: nat, n: nat)
    requires Lawful(c) && Names(c, digest, m) && Names(c, digest, n)
    ensures m == n
  {
    HexTextInjective(m, n);
  }

  /** The checked old secret is the one the database is encrypted under. */
  lemma OldSecretIsTheKey(c: Crypto, db: Db, raw: string, secret: Option<nat>, originals: map<uint32, Option<Blob>>)
    requires Lawful(c) && HoldsUnder(c, db, secret, originals) && OldSecret(c, db.digest, raw).Ok?
    ensures var former := OldSecret(c, db.digest, raw).value; former.Some? || db.digest.None? ==> former == secret
  {
    var former := OldSecret(c, db.digest, raw).value;
    if former.Some? {
      NamedSecretIsUnique(c, db.digest.value, former.value, secret.value);
    }
  }

  lemma TransitionKeepsOriginals(c: Crypto, pre: Db, former: Option<nat>, next: Option<nat>, post: Db,
                                 secret: Option<nat>, originals: map<uint32, Option<Blob>>)
    requires HoldsUnder(c, pre, secret, originals) && Transitioned(c, pre, former, next, post)
    requires former.Some? || pre.digest.None? ==> former == secret
    ensures HoldsUnder(c, post, next, originals)
  {
    hide Plain, Names;
    forall id | id in originals
      ensures (post.accounts[id].None? <==> originals[id].None?)
        && (originals[id].Some? ==> Plain(c, next, post.accounts[id].value) == originals[id])
    {
      assert Moved(c, former, next, pre.accounts[id], post.accounts[id]);
    }
  }

  /** One start, successful or not, keeps the database consistent with the same originals. */
  lemma StartKeepsConsistent(c: Crypto, config: Config, pre: Db, r: Result<Report, StartError>, post: Db,
                             originals: map<uint32, Option<Blob>>)
    requires Lawful(c) && Consistent(c, pre, originals) && StartStep(c, config, pre, r, post)
    ensures Consistent(c, post, originals)
  {
    hide HoldsUnder, Transitioned, Lawful;
    var secret :| HoldsUnder(c, pre, secret, originals);
    if post == pre {
      assert HoldsUnder(c, post, secret, originals);
    } else {
      var former, next := OldSecret(c, pre.digest, config.former).value, ParseSecret(c, config.current).value;
      OldSecretIsTheKey(c, pre, config.former, secret, originals);
      TransitionKeepsOriginals(c, pre, former, next, post, secret, originals);
    }
  }

  /** A successful start ends with the database encrypted under the configured secret, or in plain if there is none. */
  lemma SuccessMeansConfiguredSecret(c: Crypto, config: Config, pre: Db, r: Result<Report, StartError>, post: Db,
                                     originals: map<uint32, Option<Blob>>)
    requires Lawful(c) && Consistent(c, pre, originals) && StartStep(c, config, pre, r, post) && r.Ok?
    ensures HoldsUnder(c, post, ParseSecret(c, config.current).value, originals)
    ensures r.value.present == post.digest.Some?
  {
    hide Transitioned, Lawful;
    var current := ParseSecret(c, config.current).value;
    var secret :| HoldsUnder(c, pre, secret, originals);
    if r.value.transitioned {
      var former := OldSecret(c, pre.digest, config.former).value;
      OldSecretIsTheKey(c, pre, config.former, secret, originals);
      TransitionKeepsOriginals(c, pre, former, current, post, secret, originals);
    } else if current.Some? {
      NamedSecretIsUnique(c, pre.digest.value, current.value, secret.value);
    }
  }

  /** A failed start leaves the database untouched, or fully moved when the COMMIT reply was lost. */
  lemma FailureIsAllOrNothing(c: Crypto, config: Config, pre: Db, r: Result<Report, StartError>, post: Db)
    requires StartStep(c, config, pre, r, post) && r.Err?
    ensures post == pre || (r.error == CommitOutcomeUnknown
      && ParseSecret(c, config.current).Ok? && OldSecret(c, pre.digest, config.former).Ok?
      && Transitioned(c, pre, OldSecret(c, pre.digest, config.former).value, ParseSecret(c, config.current).value, post))
  {
    hide Transitioned;
  }

  /** Encryption and hashing, called as the source calls them, never report an error. */
  ghost predicate NeverFails(c: Crypto) {
    && (forall key, iv, data: Blob :: |key| == AES_KEY_BYTES && |iv| == AES_IV_BYTES ==> c.encrypt(key, iv, data).Some?)
    && (forall text, salt :: |salt| == SALT_BYTES ==> c.hash(text, salt).Some?)
  }

  /** Known before the start: the secret is to change, the old one checks out, and nothing stands in the way. */
  predicate MayCommit(c: Crypto, config: Config, pre: Db) {
    && ParseSecret(c, config.current).Ok?
    && DigestMatches(c, pre.digest, ParseSecret(c, config.current).value) == Some(false)
    && OldSecret(c, pre.digest, config.former).Ok?
    && CanMove(c, pre, OldSecret(c, pre.digest, config.former).value)
  }

  /** One blob under the new secret, with a zero IV. */
  lemma Reseal(c: Crypto, next: Option<nat>, plain: Blob) returns (blob: Blob)
    requires Lawful(c) && NeverFails(c)
    ensures Plain(c, next, blob) == Some(plain)
  {
    if next.None? {
      return plain;
    }
    var iv := Zeros(AES_IV_BYTES);
    var (body, tag) := c.encrypt(AesKey(next.value), iv, plain).value;
    blob := body + iv + tag;
    assert blob[|body|..|body| + AES_IV_BYTES] == iv && blob[|body| + AES_IV_BYTES..] == tag && blob[..|body|] == body;
  }

  /** The accounts moved to the new secret, one after the other. */
  lemma MoveAccounts(c: Crypto, pre: Db, former: Option<nat>, next: Option<nat>, todo: set<uint32>)
    returns (accounts: map<uint32, Option<Blob>>)
    requires Lawful(c) && NeverFails(c) && CanMove(c, pre, former) && todo <= pre.accounts.Keys
    ensures accounts.Keys == todo
    ensures forall id :: id in todo ==> Moved(c, former, next, pre.accounts[id], accounts[id])
    decreases todo
  {
    hide Lawful, NeverFails, Plain;
    if todo == {} {
      return map[];
    }
    var id :| id in todo;
    var rest := MoveAccounts(c, pre, former, next, todo - {id});
    var before, after := pre.accounts[id], None;
    if before.Some? {
      var blob := Reseal(c, next, Plain(c, former, before.value).value);
      after := Some(blob);
    }
    assert Moved(c, former, next, before, after);
    accounts := rest[id := after];
    assert accounts.Keys == todo;
  }

  /** A start that may commit has a completed transition ahead of it, which always changes the database. */
  lemma TransitionExists(c: Crypto, config: Config, pre: Db) returns (post: Db)
    requires Lawful(c) && NeverFails(c) && MayCommit(c, config, pre)
    ensures post != pre && StartStep(c, config, pre, Err(CommitOutcomeUnknown), post)
  {
    var current, former := ParseSecret(c, config.current).value, OldSecret(c, pre.digest, config.former).value;
    var accounts := MoveAccounts(c, pre, former, current, pre.accounts.Keys);
    var digest := None;
    if current.Some? {
      assert |Zeros(SALT_BYTES)| == SALT_BYTES;
      digest := c.hash(HexText(current.value), Zeros(SALT_BYTES));
    }
    post := Db(digest, accounts);
    assert current.Some? ==> Names(c, digest.value, current.value);
    assert Transitioned(c, pre, former, current, post);
  }

  lemma TransitionNeedsMayCommit(c: Crypto, config: Config, pre: Db, r: Result<Report, StartError>, post: Db)
    requires StartStep(c, config, pre, r, post) && (post != pre || (r.Ok? && r.value.transitioned))
    ensures MayCommit(c, config, pre)
  {
    var current, former := ParseSecret(c, config.current).value, OldSecret(c, pre.digest, config.former).value;
    assert Transitioned(c, pre, former, current, post);
    assert forall id :: id in pre.accounts ==> Moved(c, former, current, pre.accounts[id], post.accounts[id]);
  }

  /**
   * "A failed start changes nothing" is safe to rely on, before starting, exactly
   * when the start cannot get as far as committing a transition.
   */
  lemma FailureIsSafeIff(c: Crypto, config: Config, pre: Db)
    requires Lawful(c) && NeverFails(c)
    ensures (forall r, post :: StartStep(c, config, pre, r, post) && r.Err? ==> post == pre) <==> !MayCommit(c, config, pre)
  {
    hide StartStep, MayCommit, Lawful, NeverFails;
    if MayCommit(c, config, pre) {
      var post := TransitionExists(c, config, pre);
      var r: Result<Report, StartError> := Err(CommitOutcomeUnknown);
      assert StartStep(c, config, pre, r, post) && r.Err? && post != pre;
    } else {
      forall r, post | StartStep(c, config, pre, r, post)
        ensures post == pre
      {
        if post != pre {
          TransitionNeedsMayCommit(c, config, pre, r, post);
          assert false;
        }
      }
    }
  }

  /** In a consistent database only a missing old secret can stand in the way of a checked one. */
  lemma ConsistentMayCommit(c: Crypto, config: Config, pre: Db, originals: map<uint32, Option<Blob>>)
    requires Lawful(c) && Consistent(c, pre, originals)
    requires ParseSecret(c, config.current).Ok? && OldSecret(c, pre.digest, config.former).Ok?
    requires DigestMatches(c, pre.digest, ParseSecret(c, config.current).value) == Some(false)
    ensures MayCommit(c, config, pre) <==>
      (pre.digest.Some? && OldSecret(c, pre.digest, config.former).value.None? ==>
        forall id :: id in pre.accounts ==> pre.accounts[id].None?)
  {
    hide Lawful;
    var secret :| HoldsUnder(c, pre, secret, originals);
    OldSecretIsTheKey(c, pre, config.former, secret, originals);
  }

  /** The laws can be met: let the tag be the nonce and the digest be the text. */
  lemma LawsCanBeMet() returns (c: Crypto)
    ensures Lawful(c) && NeverFails(c) && c.parseHex("7") == Some(7)
  {
    c := Crypto(
      raw => Some(7),
      (key: seq<byte>, iv: seq<byte>, data: Blob) => if |iv| == AES_TAG_BYTES then Some((data, iv)) else None,
      (key: seq<byte>, iv: seq<byte>, tag: seq<byte>, data: Blob) => Some(data),
      (text: string, salt: seq<byte>) => Some(text),
      (text: string, digest: string) => Some(text == digest));
  }

  /** Whatever a start may commit and report, it may also commit without learning so. */
  lemma SuccessMayBeReportedAsFailure(c: Crypto, config: Config, pre: Db, report: Report, post: Db)
    requires StartStep(c, config, pre, Ok(report), post) && report.transitioned
    ensures StartStep(c, config, pre, Err(CommitOutcomeUnknown), post)
  {
    TransitionNeedsMayCommit(c, config, pre, Ok(report), post);
    hide Transitioned, CanMove;
  }

  /** "A failed start changes nothing" is false: the first start with a secret, its COMMIT reply lost. */
  lemma FailureMayHaveCommitted(c: Crypto, salt: seq<byte>, digest: string)
    requires Lawful(c) && c.parseHex("7") == Some(7) && c.hash(HexText(7), salt) == Some(digest)
    ensures var pre, post := Db(None, map[]), Db(Some(digest), map[]);
      StartStep(c, Config("7", ""), pre, Err(CommitOutcomeUnknown), post) && post != pre
  {
    var config, pre, post := Config("7", ""), Db(None, map[]), Db(Some(digest), map[]);
    assert ParseSecret(c, config.current) == Ok(Some(7));
    assert Names(c, digest, 7);
    assert Transitioned(c, pre, None, Some(7), post);
    assert StartStep(c, config, pre, Ok(Report(true, true)), post);
    SuccessMayBeReportedAsFailure(c, config, pre, Report(true, true), post);
  }

  /** From a consistent database the checked old secret decrypts every account. */
  lemma DecryptionNeverFails(c: Crypto, config: Config, pre: Db, r: Result<Report, StartError>, post: Db,
                             originals: map<uint32, Option<Blob>>)
    requires Lawful(c) && Consistent(c, pre, originals) && StartStep(c, config, pre, r, post)
    ensures r != Err(CannotDecrypt)
  {
    hide Transitioned, Lawful;
    var secret :| HoldsUnder(c, pre, secret, originals);
    if OldSecret(c, pre.digest, config.former).Ok? {
      var former := OldSecret(c, pre.digest, config.former).value;
      OldSecretIsTheKey(c, pre, config.former, secret, originals);
      assert former.Some? ==> forall id :: HasSecret(pre, id) ==> Decrypted(c, former.value, pre.accounts[id].value).Some?;
    }
  }

  /** Starting again with the same secret changes nothing, also after a failure that had committed. */
  lemma RestartIsQuiet(c: Crypto, config: Config, again: Config, pre: Db, mid: Db, post: Db,
                       first: Result<Report, StartError>, second: Result<Report, StartError>)
    requires Lawful(c) && StartStep(c, config, pre, first, mid) && (first.Ok? || mid != pre)
    requires again.current == config.current && StartStep(c, again, mid, second, post)
    ensures post == mid && second == Ok(Report(mid.digest.Some?, false))
  {
    if first.Err? {
      FailureIsAllOrNothing(c, config, pre, first, mid);
    }
  }

  /** A run of the server: each start sees the database the previous one left. */
  ghost predicate IsRun(c: Crypto, configs: seq<Config>, results: seq<Result<Report, StartError>>, dbs: seq<Db>) {
    && |dbs| == |configs| + 1 && |results| == |configs|
    && forall i :: 0 <= i < |configs| ==> StartStep(c, configs[i], dbs[i], results[i], dbs[i + 1])
  }

  /** Over any sequence of restarts with any configurations no original is ever lost. */
  lemma {:induction false} EveryReachableDatabaseIsConsistent(
    c: Crypto, configs: seq<Config>, results: seq<Result<Report, StartError>>, dbs: seq<Db>,
    originals: map<uint32, Option<Blob>>, n: nat)
    requires Lawful(c) && IsRun(c, configs, results, dbs) && Consistent(c, dbs[0], originals) && n < |dbs|
    ensures Consistent(c, dbs[n], originals)
    ensures n > 0 && results[n - 1].Ok? ==>
      HoldsUnder(c, dbs[n], ParseSecret(c, configs[n - 1].current).value, originals)
  {
    hide StartStep, Consistent, HoldsUnder, Lawful;
    if n > 0 {
      EveryReachableDatabaseIsConsistent(c, configs, results, dbs, originals, n - 1);
      StartKeepsConsistent(c, configs[n - 1], dbs[n - 1], results[n - 1], dbs[n], originals);
      if results[n - 1].Ok? {
        SuccessMeansConfiguredSecret(c, configs[n - 1], dbs[n - 1], results[n - 1], dbs[n], originals);
      }
    }
  }
}
