/** Shared session-ticket keys: a ticketer that re-reads one key file, holds the current and the
    previous derivation epoch, and seals and opens tickets under them. */
module Stek {
  import opened Wrappers
  import opened Words
  import opened Arithmetic

  type Bytes = seq<bv8>

  const STEK_FILE_LEN := 64
  const KEY_NAME_LEN := 16
  const IV_LEN := 16
  const TAG_LEN := 32
  const MIN_TICKET_LEN := KEY_NAME_LEN + IV_LEN + 16 + TAG_LEN

  datatype Purpose = CipherKey | MacKey | KeyName

  /** The primitives, as given functions. */
  datatype Crypto = Crypto(
    digest: Bytes -> Bytes,
    expand: (Bytes, Bytes, Purpose) -> Bytes,
    encrypt: (Bytes, Bytes, Bytes) -> Bytes,
    decrypt: (Bytes, Bytes, Bytes) -> Option<Bytes>,
    sign: (Bytes, Bytes) -> Bytes)
  {
    /** What the theorems need of them: decryption inverts encryption, padding makes at least one
        block, and the fixed lengths. */
    ghost predicate Lawful() {
      && (forall k, iv, p :: decrypt(k, iv, encrypt(k, iv, p)) == Some(p))
      && (forall k, iv, p :: |encrypt(k, iv, p)| >= 16)
      && (forall k, b :: |sign(k, b)| == TAG_LEN)
      && (forall i, b :: |expand(i, b, KeyName)| == KEY_NAME_LEN)
    }
  }

  /** One derivation epoch. */
  datatype Keys = Keys(name: Bytes, cipher: Bytes, mac: Bytes, digest: Bytes, mtime: int)

  function Derive(c: Crypto, ikm: Bytes, binding: Bytes, mtime: int): Keys {
    Keys(c.expand(ikm, binding, KeyName), c.expand(ikm, binding, CipherKey), c.expand(ikm, binding, MacKey),
         c.digest(ikm), mtime)
  }

  /** Within the age limit; a time stamp in the future counts as fresh. */
  predicate StillFresh(mtime: int, wall: int, maxAge: nat) {
    wall < mtime || wall - mtime <= maxAge
  }

  predicate Fresh(keys: Keys, wall: int, maxAge: nat) {
    StillFresh(keys.mtime, wall, maxAge)
  }

  /** The key file as a check finds it. */
  datatype File = Unreadable | File(mode: nat, mtime: int, content: Bytes)

  /** Owner-only permissions and the exact length, or the file is unusable. */
  function ReadAndDerive(c: Crypto, file: File, binding: Bytes): Option<Keys> {
    match file
    case Unreadable => None
    case File(mode, mtime, content) =>
      if mode % 64 != 0 || |content| != STEK_FILE_LEN then None
      else Some(Derive(c, content, binding, mtime))
  }

  /** A key file that must not be used: unreadable, of the wrong length, or with any permission bit of
      its group or of others set. */
  ghost predicate Faulty(file: File) {
    match file
    case Unreadable => true
    case File(mode, mtime, content) => |content| != 64 || exists k :: 0 <= k < 6 && BitSet(mode, k)
  }

  lemma ReadIffNotFaulty(c: Crypto, file: File, binding: Bytes)
    ensures ReadAndDerive(c, file, binding).None? <==> Faulty(file)
    ensures !Faulty(file) ==> ReadAndDerive(c, file, binding).value.mtime == file.mtime
  {
    if file.File? {
      LowBits(file.mode, 6);
      assert Pow2(3) == 8;
      assert Pow2(6) == 64;
    }
  }

  /** The lifetime advertised with a ticket, in seconds, narrowed to 32 bits. */
  function LifetimeSecs(maxAge: nat): nat {
    if maxAge < U32 then maxAge else U32 - 1
  }

  /** A ticket issued at `wall` stays usable for all of its advertised lifetime. */
  ghost predicate ClaimKept(keys: Keys, wall: int, maxAge: nat) {
    forall u: int :: wall <= u <= wall + LifetimeSecs(maxAge) ==> Fresh(keys, u, maxAge)
  }

  /** A ticket claims no more life than its key has left exactly when it was issued no later than the
      key file's time stamp; a limit beyond 32 bits leaves that much more room. */
  lemma ClaimKeptExactly(keys: Keys, wall: int, maxAge: nat)
    ensures ClaimKept(keys, wall, maxAge) <==> wall <= keys.mtime + (maxAge - LifetimeSecs(maxAge))
    ensures maxAge < U32 ==> (ClaimKept(keys, wall, maxAge) <==> wall <= keys.mtime)
  {
    var last: int := wall + LifetimeSecs(maxAge);
    assert ClaimKept(keys, wall, maxAge) ==> Fresh(keys, last, maxAge);
  }

  // ---------------------------------------------------------------- tickets

  function Sealed(c: Crypto, keys: Keys, iv: Bytes, plain: Bytes): Bytes {
    var body := keys.name + iv + c.encrypt(keys.cipher, iv, plain);
    body + c.sign(keys.mac, body)
  }

  function OpenTicket(c: Crypto, keys: Keys, ticket: Bytes): Option<Bytes> {
    if |ticket| < MIN_TICKET_LEN then None
    else
      var at := |ticket| - TAG_LEN;
      var body, tag := ticket[..at], ticket[at..];
      if tag != c.sign(keys.mac, body) then None
      else c.decrypt(keys.cipher, body[KEY_NAME_LEN..KEY_NAME_LEN + IV_LEN], body[KEY_NAME_LEN + IV_LEN..])
  }

  predicate Names(keys: Keys, ticket: Bytes) {
    |ticket| >= KEY_NAME_LEN && ticket[..KEY_NAME_LEN] == keys.name
  }

  /** The first fresh epoch the ticket names opens it, or nothing does. */
  function Accept(c: Crypto, held: seq<Keys>, wall: int, maxAge: nat, ticket: Bytes): Option<Bytes> {
    if held == [] then None
    else if Fresh(held[0], wall, maxAge) && Names(held[0], ticket) then OpenTicket(c, held[0], ticket)
    else Accept(c, held[1..], wall, maxAge, ticket)
  }

  lemma OpenSealed(c: Crypto, keys: Keys, iv: Bytes, plain: Bytes)
    requires c.Lawful() && |keys.name| == KEY_NAME_LEN && |iv| == IV_LEN
    ensures OpenTicket(c, keys, Sealed(c, keys, iv, plain)) == Some(plain)
    ensures Names(keys, Sealed(c, keys, iv, plain))
    ensures |Sealed(c, keys, iv, plain)| >= MIN_TICKET_LEN
  {
    var ct := c.encrypt(keys.cipher, iv, plain);
    var body := keys.name + iv + ct;
    var ticket := Sealed(c, keys, iv, plain);
    assert |ct| >= 16 && |c.sign(keys.mac, body)| == TAG_LEN;
    assert ticket[..|ticket| - TAG_LEN] == body;
    assert ticket[|ticket| - TAG_LEN..] == c.sign(keys.mac, body);
    assert body[KEY_NAME_LEN..KEY_NAME_LEN + IV_LEN] == iv;
    assert body[KEY_NAME_LEN + IV_LEN..] == ct;
    assert ticket[..KEY_NAME_LEN] == keys.name;
  }

  /** A ticket byte by byte, and which derived key does what. */
  lemma TicketOnTheWire(c: Crypto, ikm: Bytes, binding: Bytes, mtime: int, iv: Bytes, plain: Bytes)
    ensures var body := c.expand(ikm, binding, KeyName) + iv + c.encrypt(c.expand(ikm, binding, CipherKey), iv, plain);
            Sealed(c, Derive(c, ikm, binding, mtime), iv, plain) == body + c.sign(c.expand(ikm, binding, MacKey), body)
  {
  }

  /** Only an authenticated record is ever decrypted: anything opened is a body followed by its own
      tag, and the plaintext is the decryption of the rest of that body. */
  lemma OpenedIsAuthentic(c: Crypto, keys: Keys, ticket: Bytes)
    ensures OpenTicket(c, keys, ticket).Some? <==>
            exists name: Bytes, iv: Bytes, ct: Bytes ::
              && |name| == 16 && |iv| == 16 && |ct| >= 16
              && |c.sign(keys.mac, name + iv + ct)| == 32
              && ticket == name + iv + ct + c.sign(keys.mac, name + iv + ct)
              && c.decrypt(keys.cipher, iv, ct).Some?
  {
    if OpenTicket(c, keys, ticket).Some? {
      var body, tag := ticket[..|ticket| - TAG_LEN], ticket[|ticket| - TAG_LEN..];
      var name, iv, ct := body[..KEY_NAME_LEN], body[KEY_NAME_LEN..KEY_NAME_LEN + IV_LEN], body[KEY_NAME_LEN + IV_LEN..];
      assert body == name + iv + ct;
      assert ticket == body + tag;
    }
    if name: Bytes, iv: Bytes, ct: Bytes :|
      && |name| == 16 && |iv| == 16 && |ct| >= 16
      && |c.sign(keys.mac, name + iv + ct)| == 32
      && ticket == name + iv + ct + c.sign(keys.mac, name + iv + ct)
      && c.decrypt(keys.cipher, iv, ct).Some?
    {
      var body := name + iv + ct;
      assert ticket[..|ticket| - TAG_LEN] == body;
      assert ticket[|ticket| - TAG_LEN..] == c.sign(keys.mac, body);
      assert body[KEY_NAME_LEN..KEY_NAME_LEN + IV_LEN] == iv && body[KEY_NAME_LEN + IV_LEN..] == ct;
    }
  }
}
