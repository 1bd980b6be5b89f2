/**
 Signed password reset tokens: base64 of the user id, base64 of the expiry second and base64 of a MAC
 over both and a prefix of the stored password hash. Clock readings are nanoseconds since 1970.
 */
module ResetToken {
  import opened Wrappers
  import opened Decimal
  import opened Text
  import Base64
  import Utf8

  /** The MAC under one secret key. */
  type Mac = string -> string

  datatype User = User(id: int, passwordHash: string)
  {
    /** The prefix is cut at byte 30, which must not be inside a character. */
    predicate Usable() {
      I64_MIN <= id <= I64_MAX && Utf8.Valid(passwordHash) && Utf8.Boundary(passwordHash, 30)
    }

    function HashPrefix(): string {
      passwordHash[..if |passwordHash| < 30 then |passwordHash| else 30]
    }
  }

  const SECOND: nat := 1_000_000_000

  ghost predicate MacOk(mac: Mac) {
    forall m :: Utf8.IsBytes(mac(m))
  }

  /** No two messages share a MAC. */
  ghost predicate Ideal(mac: Mac) {
    forall m1, m2 :: mac(m1) == mac(m2) ==> m1 == m2
  }

  function ExpirySecs(now: nat, ttl: nat): nat {
    (now + ttl) / SECOND
  }

  function Message(userId: int, expiry: int, prefix: string): string {
    IntToString(userId) + "." + IntToString(expiry) + "." + prefix
  }

  ghost function Generate(user: User, mac: Mac, now: nat, ttl: nat): string
    requires MacOk(mac)
  {
    var expiry := ExpirySecs(now, ttl);
    NumeralBytes(user.id);
    NumeralBytes(expiry);
    Base64.Encode(IntToString(user.id)) + "." + Base64.Encode(IntToString(expiry)) + "."
    + Base64.Encode(mac(Message(user.id, expiry, user.HashPrefix())))
  }

  /** Base64 of a decimal numeral of a type with range `[lo, hi]`. */
  function DecodeNumber(part: string, lo: int, hi: int): Option<int> {
    match Base64.Decode(part)
    case None => None
    case Some(bytes) => if Utf8.Valid(bytes) then ParseInt(bytes, lo, hi) else None
  }

  predicate Verify(user: User, token: string, mac: Mac, now: nat) {
    var parts := Split(token, '.');
    |parts| == 3 &&
    var userId := DecodeNumber(parts[0], I64_MIN, I64_MAX);
    userId == Some(user.id) &&
    var expiry := DecodeNumber(parts[1], 0, U64_MAX);
    expiry.Some? && expiry.value > now / SECOND &&
    var macBytes := Base64.Decode(parts[2]);
    macBytes.Some? && macBytes.value == mac(Message(user.id, expiry.value, user.HashPrefix()))
  }

  // ---------------------------------------------------------------------------------------------

  lemma NumeralChars(i: int)
    ensures forall k :: 0 <= k < |IntToString(i)| ==> IsDigit(IntToString(i)[k]) || IntToString(i)[k] == '-'
  {
    forall k | 0 <= k < |IntToString(i)| ensures IsDigit(IntToString(i)[k]) || IntToString(i)[k] == '-' {
      PrintedChars(i, IntToString(i)[k]);
    }
  }

  lemma NumeralBytes(i: int)
    ensures Utf8.IsBytes(IntToString(i)) && Utf8.Valid(IntToString(i)) && '.' !in IntToString(i)
  {
    NumeralChars(i);
    Utf8.AsciiIsValid(IntToString(i));
  }

  lemma NumberSurvives(i: int, lo: int, hi: int)
    requires lo <= i <= hi
    ensures Utf8.IsBytes(IntToString(i)) && DecodeNumber(Base64.Encode(IntToString(i)), lo, hi) == Some(i)
  {
    NumeralBytes(i);
    Base64.DecodeEncode(IntToString(i));
    ParsePrinted(i, lo, hi);
  }

  lemma NumeralInjective(i: int, j: int)
    requires IntToString(i) == IntToString(j)
    ensures i == j
  {
    var lo, hi := if i < j then i else j, if i < j then j else i;
    ParsePrinted(i, lo, hi);
    ParsePrinted(j, lo, hi);
  }

  lemma NumberFirst(i: int, rest: string)
    ensures SplitOnce(IntToString(i) + "." + rest, '.') == Some((IntToString(i), rest))
  {
    NumeralBytes(i);
    assert IntToString(i) + "." + rest == IntToString(i) + ['.'] + rest;
    SplitOnceAtFirst(IntToString(i), '.', rest);
  }

  lemma FirstUnambiguous(i1: int, rest1: string, i2: int, rest2: string)
    requires IntToString(i1) + "." + rest1 == IntToString(i2) + "." + rest2
    ensures i1 == i2 && rest1 == rest2
  {
    NumberFirst(i1, rest1);
    NumberFirst(i2, rest2);
    NumeralInjective(i1, i2);
  }

  /** A signed message belongs to one user id, one expiry and one prefix, dots in the prefix included. */
  lemma MessageUnambiguous(id1: int, e1: int, p1: string, id2: int, e2: int, p2: string)
    requires Message(id1, e1, p1) == Message(id2, e2, p2)
    ensures id1 == id2 && e1 == e2 && p1 == p2
  {
    MessageHead(id1, e1, p1);
    MessageHead(id2, e2, p2);
    FirstUnambiguous(id1, IntToString(e1) + "." + p1, id2, IntToString(e2) + "." + p2);
    FirstUnambiguous(e1, p1, e2, p2);
  }

  lemma MessageHead(id: int, e: int, p: string)
    ensures Message(id, e, p) == IntToString(id) + "." + (IntToString(e) + "." + p)
  {
  }

  /** A token has exactly three parts. */
  lemma TokenParts(user: User, mac: Mac, now: nat, ttl: nat)
    requires MacOk(mac)
    ensures var expiry := ExpirySecs(now, ttl);
      && Utf8.IsBytes(IntToString(user.id)) && Utf8.IsBytes(IntToString(expiry))
      && Split(Generate(user, mac, now, ttl), '.') ==
           [Base64.Encode(IntToString(user.id)), Base64.Encode(IntToString(expiry)),
            Base64.Encode(mac(Message(user.id, expiry, user.HashPrefix())))]
  {
    var expiry := ExpirySecs(now, ttl);
    NumeralBytes(user.id);
    NumeralBytes(expiry);
    var a, b := Base64.Encode(IntToString(user.id)), Base64.Encode(IntToString(expiry));
    var c := Base64.Encode(mac(Message(user.id, expiry, user.HashPrefix())));
    Base64.NoDots(IntToString(user.id));
    Base64.NoDots(IntToString(expiry));
    Base64.NoDots(mac(Message(user.id, expiry, user.HashPrefix())));
    assert Generate(user, mac, now, ttl) == a + ['.'] + (b + ['.'] + c);
    SplitAtFirst(a, '.', b + ['.'] + c);
    SplitAtFirst(b, '.', c);
    SplitAbsent(c, '.');
  }

  /** With no assumption on the MAC: what verifying a generated token comes down to. */
  lemma VerifyGenerated(issued: User, user: User, mac: Mac, now: nat, ttl: nat, later: nat)
    requires MacOk(mac) && issued.Usable() && user.Usable() && ExpirySecs(now, ttl) <= U64_MAX
    ensures var expiry := ExpirySecs(now, ttl);
      Verify(user, Generate(issued, mac, now, ttl), mac, later) <==>
      && user.id == issued.id && later / SECOND < expiry
      && mac(Message(issued.id, expiry, issued.HashPrefix())) == mac(Message(user.id, expiry, user.HashPrefix()))
  {
    var expiry := ExpirySecs(now, ttl);
    TokenParts(issued, mac, now, ttl);
    NumberSurvives(issued.id, I64_MIN, I64_MAX);
    NumberSurvives(expiry, 0, U64_MAX);
    Base64.DecodeEncode(mac(Message(issued.id, expiry, issued.HashPrefix())));
  }

  /** The first 30 bytes of two hashes, as far as there are any, are the same. */
  predicate SameStart(h1: string, h2: string) {
    if |h1| < 30 || |h2| < 30 then h1 == h2 else h1[..30] == h2[..30]
  }

  lemma SamePrefix(u1: User, u2: User)
    ensures u1.HashPrefix() == u2.HashPrefix() <==> SameStart(u1.passwordHash, u2.passwordHash)
  {
  }

  /** A token verifies for the same user, before it expires, while the hash's start is unchanged; else not. */
  lemma TokenExact(issued: User, user: User, mac: Mac, now: nat, ttl: nat, later: nat)
    requires MacOk(mac) && Ideal(mac) && issued.Usable() && user.Usable()
    requires (now + ttl) / 1_000_000_000 <= U64_MAX
    ensures Verify(user, Generate(issued, mac, now, ttl), mac, later) <==>
      && user.id == issued.id && later / 1_000_000_000 < (now + ttl) / 1_000_000_000
      && SameStart(user.passwordHash, issued.passwordHash)
  {
    SamePrefix(user, issued);
    VerifyGenerated(issued, user, mac, now, ttl, later);
    var expiry := ExpirySecs(now, ttl);
    if mac(Message(issued.id, expiry, issued.HashPrefix())) == mac(Message(user.id, expiry, user.HashPrefix())) {
      MessageUnambiguous(issued.id, expiry, issued.HashPrefix(), user.id, expiry, user.HashPrefix());
    }
  }

  /** A MAC that was issued is only ever accepted beside the id, expiry and prefix it was issued for. */
  lemma MacIsNotTransferable(issued: User, user: User, mac: Mac, expiry: nat, token: string, later: nat)
    requires MacOk(mac) && Ideal(mac) && Verify(user, token, mac, later)
    requires Split(token, '.')[2] == Base64.Encode(mac(Message(issued.id, expiry, issued.HashPrefix())))
    ensures user.id == issued.id && user.HashPrefix() == issued.HashPrefix()
    ensures DecodeNumber(Split(token, '.')[1], 0, U64_MAX) == Some(expiry) && later / SECOND < expiry
  {
    Base64.DecodeEncode(mac(Message(issued.id, expiry, issued.HashPrefix())));
    var shown := DecodeNumber(Split(token, '.')[1], 0, U64_MAX).value;
    MessageUnambiguous(issued.id, expiry, issued.HashPrefix(), user.id, shown, user.HashPrefix());
  }
}
