/** Accounts, the byte form in which they are stored and the byte form in which
    they are hashed (pkg/accounts/accounts.go and pkg/accounts/hash.go). */
module Accounts {
  import opened Bytes

  datatype Account = Account(lamports: u64, data: seq<byte>, owner: Pubkey, executable: bool, rentEpoch: u64)

  datatype AccountError = NotFound | InvalidData | Closed

  predicate IsZero(a: Account) {
    a.lamports == 0 && a.data == []
  }

  // ------------------------------------------------------------ stored bytes

  /** The stored form: lamports, data length, data, owner, executable, rent epoch.
      Go truncates the length to 64 bits; a slice cannot be that long. */
  function Serialized(a: Account): (s: seq<byte>)
    ensures |s| == 57 + |a.data|
  {
    LE(a.lamports, 8) + LE(|a.data|, 8) + a.data + a.owner + [Flag(a.executable)] + LE(a.rentEpoch, 8)
  }

  method Serialize(a: Account) returns (s: seq<byte>)
    ensures s == Serialized(a)
  {
    var buf := new byte[8 + 8 + |a.data| + 32 + 1 + 8];
    var offset := 0;
    CopyInto(buf, offset, LE(a.lamports, 8));
    offset := offset + 8;
    CopyInto(buf, offset, LE(|a.data|, 8));
    offset := offset + 8;
    CopyInto(buf, offset, a.data);
    offset := offset + |a.data|;
    CopyInto(buf, offset, a.owner);
    offset := offset + 32;
    if a.executable {
      CopyInto(buf, offset, [1]);
    } else {
      CopyInto(buf, offset, [0]);
    }
    offset := offset + 1;
    CopyInto(buf, offset, LE(a.rentEpoch, 8));
    s := buf[..];
    assert s == buf[..offset + 8];
  }

  function Deserialize(data: seq<byte>): Result<Account, AccountError> {
    if |data| < 57 then Err(InvalidData) else
    var lamports := Read8(data[0..8]);
    var dataLen := Read8(data[8..16]);
    if dataLen > MAX_DATA || |data| - 16 < dataLen + 41 then Err(InvalidData) else
    var off := 16 + dataLen;
    Ok(Account(lamports, data[16..off], data[off..off + 32], data[off + 32] != 0, Read8(data[off + 33..off + 41])))
  }

  lemma LengthField(a: Account)
    ensures Serialized(a)[8..16] == LE(|a.data|, 8)
  {
    var rest := a.data + a.owner + [Flag(a.executable)] + LE(a.rentEpoch, 8);
    assert Serialized(a) == LE(a.lamports, 8) + LE(|a.data|, 8) + rest;
    Within(LE(a.lamports, 8), LE(|a.data|, 8), rest, 0, 8);
  }

  /** Reading back what was stored, with any bytes behind it, gives the account
      exactly when its data is within the 10 MiB limit; otherwise it is an error. */
  lemma SerializedRoundTrip(a: Account, tail: seq<byte>)
    requires |a.data| < U64_SIZE
    ensures Deserialize(Serialized(a) + tail) == if |a.data| <= MAX_DATA then Ok(a) else Err(InvalidData)
  {
    var n := |a.data|;
    var s := Serialized(a) + tail;
    assert s[0..8] == LE(a.lamports, 8);
    assert s[8..16] == LE(n, 8);
    assert s[16..16 + n] == a.data;
    assert s[16 + n..16 + n + 32] == a.owner;
    assert s[16 + n + 32] == Flag(a.executable);
    assert s[16 + n + 33..16 + n + 41] == LE(a.rentEpoch, 8);
    LE8(a.lamports);
    LE8(n);
    LE8(a.rentEpoch);
  }

  // ------------------------------------------------------------ hashed bytes

  /** What an account hash is the digest of. No length is recorded, yet every
      field is at a fixed distance from one of the two ends. */
  function HashPre(k: Pubkey, a: Account): (s: seq<byte>)
    ensures |s| == 81 + |a.data|
  {
    LE(a.lamports, 8) + LE(a.rentEpoch, 8) + a.data + [Flag(a.executable)] + a.owner + k
  }

  method ComputeAccountHash(sha: Sha, k: Pubkey, a: Account) returns (h: Hash)
    ensures h == sha(HashPre(k, a))
  {
    var buf := new byte[8 + 8 + |a.data| + 1 + 32 + 32];
    var offset := 0;
    CopyInto(buf, offset, LE(a.lamports, 8));
    offset := offset + 8;
    CopyInto(buf, offset, LE(a.rentEpoch, 8));
    offset := offset + 8;
    CopyInto(buf, offset, a.data);
    offset := offset + |a.data|;
    if a.executable {
      CopyInto(buf, offset, [1]);
    } else {
      CopyInto(buf, offset, [0]);
    }
    offset := offset + 1;
    CopyInto(buf, offset, a.owner);
    offset := offset + 32;
    CopyInto(buf, offset, k);
    assert buf[..] == buf[..offset + 32];
    h := sha(buf[..]);
  }

  lemma HashPreInjective(k1: Pubkey, a1: Account, k2: Pubkey, a2: Account)
    requires HashPre(k1, a1) == HashPre(k2, a2)
    ensures k1 == k2 && a1 == a2
  {
    HashPreFields(k1, a1);
    HashPreFields(k2, a2);
  }

  lemma HashPreFields(k: Pubkey, a: Account)
    ensures var s, n := HashPre(k, a), |a.data|;
            && n == |s| - 81 && a.lamports == UnLE(s[0..8]) && a.rentEpoch == UnLE(s[8..16])
            && a.data == s[16..16 + n] && (a.executable <==> s[16 + n] == 1)
            && a.owner == s[17 + n..49 + n] && k == s[49 + n..]
  {
    var s, n := HashPre(k, a), |a.data|;
    assert s[0..8] == LE(a.lamports, 8) && s[8..16] == LE(a.rentEpoch, 8);
    LE8(a.lamports);
    LE8(a.rentEpoch);
  }
}
