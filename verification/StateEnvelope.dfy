/**
 Encrypted state records: the base64 form of nonce and ciphertext, a separator, and the name of the key. The cipher is
 an abstract AEAD of which only this is assumed, that opening undoes sealing.
 */
module StateEnvelope {
  import opened Text
  import opened Base64

  const BAR: Byte := 124

  /** An AEAD: sealing and opening under a nonce of a fixed size. */
  datatype Cipher = Cipher(nonceSize: nat, seal: (Bytes, Bytes) -> Bytes, open: (Bytes, Bytes) -> Option<Bytes>)

  ghost predicate Correct(c: Cipher)
  {
    forall nonce: Bytes, value: Bytes :: |nonce| == c.nonceSize ==> c.open(nonce, c.seal(nonce, value)) == Some(value)
  }

  /** A key as configured; one that is not configured has no name and no cipher. */
  datatype Key = Key(name: Bytes, cipher: Option<Cipher>)

  datatype Keys = Keys(primary: Key, secondary: Key)

  const NO_KEY := Key([], None)

  datatype Error = NoKeyName | NoSuchKey | BadEncoding | TooShort | NotAuthentic | NoNonce

  /** How a call ends; `Panics` is the use of a cipher that is not there. */
  datatype Result = Ok(value: Bytes) | Err(error: Error) | Panics

  /** The separator stands at `i`. */
  predicate SeparatorAt(s: Bytes, i: int)
  {
    0 <= i && i + 1 < |s| && s[i] == BAR && s[i + 1] == BAR
  }

  /** `bytes.LastIndex` of the separator; -1 when there is none. */
  function LastSeparator(s: Bytes): (i: int)
    ensures i == -1 || SeparatorAt(s, i)
    ensures forall j :: SeparatorAt(s, j) ==> j <= i
  {
    if |s| < 2 then -1
    else if SeparatorAt(s, |s| - 2) then |s| - 2
    else
      var front := s[..|s| - 1];
      assert forall j :: SeparatorAt(s, j) && j != |s| - 2 ==> SeparatorAt(front, j);
      LastSeparator(front)
  }

  function Encrypt(value: Bytes, c: Cipher, nonce: Bytes): (sealed: Bytes)
  {
    nonce + c.seal(nonce, value)
  }

  function Decrypt(value: Bytes, c: Cipher): (r: Result)
  {
    var enc := Decode(value);
    if enc.None? then Err(BadEncoding)
    else if |enc.value| < c.nonceSize then Err(TooShort)
    else
      var plain := c.open(enc.value[..c.nonceSize], enc.value[c.nonceSize..]);
      if plain.Some? then Ok(plain.value) else Err(NotAuthentic)
  }

  /** The record of sealed bytes under a key's name. */
  function Envelope(sealed: Bytes, name: Bytes): (record: Bytes)
  {
    Encode(sealed) + ([BAR, BAR] + name)
  }

  /** The cipher a record's key name stands for; the primary key is asked first. */
  function Select(keys: Keys, name: Bytes): (c: Option<Cipher>)
  {
    if keys.primary.name == name then keys.primary.cipher
    else if keys.secondary.name == name then keys.secondary.cipher
    else None
  }

  /** `TryEncryptValue` with the nonce that the random source gave, if it gave one. */
  function TryEncrypt(keys: Keys, value: Bytes, nonce: Option<Bytes>): (r: Result)
  {
    if keys.primary.cipher.None? then Panics
    else if nonce.None? then Err(NoNonce)
    else Ok(Envelope(Encrypt(value, keys.primary.cipher.value, nonce.value), keys.primary.name))
  }

  function TryDecrypt(keys: Keys, value: Bytes): (r: Result)
  {
    if value == [] then Ok([])
    else
      var i := LastSeparator(value);
      if i < 0 || i + 2 == |value| then Err(NoKeyName)
      else
        var c := Select(keys, value[i + 2..]);
        if c.None? then Err(NoSuchKey) else Decrypt(value[..i], c.value)
  }

  // ----- the name of the key is found again -----

  /** The names that can be told apart from the separator. */
  ghost predicate Legible(name: Bytes)
  {
    name != [] && name[0] != BAR && forall i :: !SeparatorAt(name, i)
  }

  lemma NoBarInEncoding(b: Bytes)
    ensures BAR !in Encode(b)
  {
    EncodeInAlphabet(b);
  }

  /** The places from the separator on where a separator stands. */
  lemma SeparatorsOfRecord(a: Bytes, name: Bytes, k: nat)
    ensures SeparatorAt(a + ([BAR, BAR] + name), |a| + k) <==>
            k == 0 || (k == 1 && name != [] && name[0] == BAR) || SeparatorAt(name, k - 2)
  {
    var s := a + ([BAR, BAR] + name);
    assert forall i :: |a| + 2 <= i < |s| ==> s[i] == name[i - |a| - 2];
  }

  /** A separator behind the one before the name is the name's doing. */
  lemma LaterSeparator(a: Bytes, name: Bytes, i: int)
    requires name != [] && i > |a| && SeparatorAt(a + ([BAR, BAR] + name), i)
    ensures !Legible(name)
  {
    SeparatorsOfRecord(a, name, i - |a|);
    assert name[0] == BAR || SeparatorAt(name, i - |a| - 2);
  }

  /** A name that is not legible has such a separator. */
  lemma IllegibleName(a: Bytes, name: Bytes) returns (i: int)
    requires name != [] && !Legible(name)
    ensures i > |a| && SeparatorAt(a + ([BAR, BAR] + name), i)
  {
    if name[0] == BAR {
      i := |a| + 1;
    } else {
      var j :| SeparatorAt(name, j);
      i := |a| + 2 + j;
    }
    SeparatorsOfRecord(a, name, i - |a|);
  }

  /** The separator before the name is the last one, unless the name adds one. */
  lemma WhereTheNameStarts(a: Bytes, name: Bytes)
    requires BAR !in a
    ensures LastSeparator(a + ([BAR, BAR] + name)) >= |a|
    ensures name != [] ==> (LastSeparator(a + ([BAR, BAR] + name)) == |a| <==> Legible(name))
  {
    var last := LastSeparator(a + ([BAR, BAR] + name));
    SeparatorsOfRecord(a, name, 0);
    if name != [] {
      if !Legible(name) {
        var i := IllegibleName(a, name);
      } else if last > |a| {
        LaterSeparator(a, name, last);
      }
    }
  }

  lemma DecryptOfEncrypt(value: Bytes, c: Cipher, nonce: Bytes)
    requires Correct(c) && |nonce| == c.nonceSize
    ensures Decrypt(Encode(Encrypt(value, c, nonce)), c) == Ok(value)
  {
    var sealed := Encrypt(value, c, nonce);
    DecodeOfEncode(sealed);
    assert sealed[..c.nonceSize] == nonce && sealed[c.nonceSize..] == c.seal(nonce, value);
  }

  /** A record that was cut behind a bar does not decrypt. */
  lemma BarDoesNotDecode(s: Bytes, c: Cipher)
    requires BAR in s
    ensures Decrypt(s, c) == Err(BadEncoding)
  {
    if Decode(s).Some? {
      DecodableInAlphabet(s, BAR);
    }
  }

  /** A record with a legible name is read with the cipher that the name stands for. */
  lemma LegibleRecord(keys: Keys, a: Bytes, name: Bytes)
    requires BAR !in a && Legible(name)
    ensures TryDecrypt(keys, a + ([BAR, BAR] + name)) ==
            if Select(keys, name).None? then Err(NoSuchKey) else Decrypt(a, Select(keys, name).value)
  {
    var record := a + ([BAR, BAR] + name);
    WhereTheNameStarts(a, name);
    assert record[|a| + 2..] == name && record[..|a|] == a;
  }

  /** A record with any other name is refused. */
  lemma IllegibleRecord(keys: Keys, a: Bytes, name: Bytes)
    requires BAR !in a && !Legible(name)
    ensures TryDecrypt(keys, a + ([BAR, BAR] + name)).Err?
  {
    var record := a + ([BAR, BAR] + name);
    WhereTheNameStarts(a, name);
    var i := LastSeparator(record);
    if i + 2 < |record| {
      var c := Select(keys, record[i + 2..]);
      if c.Some? {
        assert record[..i][|a|] == BAR;
        BarDoesNotDecode(record[..i], c.value);
      }
    }
  }

  /** A record written with some keys and read with others, under which the name of the writing key still stands for
      its cipher: the value comes back exactly when the name is legible, and otherwise there is an error. */
  lemma RecordsCanBeRead(keys: Keys, later: Keys, value: Bytes, nonce: Bytes)
    requires keys.primary.cipher.Some? && Correct(keys.primary.cipher.value)
    requires |nonce| == keys.primary.cipher.value.nonceSize
    requires Select(later, keys.primary.name) == keys.primary.cipher
    ensures TryEncrypt(keys, value, Some(nonce)).Ok?
    ensures Legible(keys.primary.name) ==> TryDecrypt(later, TryEncrypt(keys, value, Some(nonce)).value) == Ok(value)
    ensures !Legible(keys.primary.name) ==> TryDecrypt(later, TryEncrypt(keys, value, Some(nonce)).value).Err?
  {
    var c, name := keys.primary.cipher.value, keys.primary.name;
    var sealed := Encrypt(value, c, nonce);
    NoBarInEncoding(sealed);
    if Legible(name) {
      LegibleRecord(later, Encode(sealed), name);
      DecryptOfEncrypt(value, c, nonce);
    } else {
      IllegibleRecord(later, Encode(sealed), name);
    }
  }

  /** What a record looks like: the base64 form of the nonce and the sealed value, two bars, and the name of the primary
      key. */
  lemma RecordFormat(keys: Keys, value: Bytes, nonce: Bytes)
    requires keys.primary.cipher.Some?
    ensures var record := TryEncrypt(keys, value, Some(nonce));
            && record.Ok? && |record.value| >= |keys.primary.name| + 2
            && var n := |record.value| - |keys.primary.name| - 2;
               && record.value[n..] == ['|' as int, '|' as int] + keys.primary.name
               && '|' as int !in record.value[..n]
               && Decode(record.value[..n]) == Some(nonce + keys.primary.cipher.value.seal(nonce, value))
  {
    var sealed := nonce + keys.primary.cipher.value.seal(nonce, value);
    DecodeOfEncode(sealed);
    NoBarInEncoding(sealed);
    var record := Encode(sealed) + ([BAR, BAR] + keys.primary.name);
    assert record[|Encode(sealed)|..] == [BAR, BAR] + keys.primary.name && record[..|Encode(sealed)|] == Encode(sealed);
  }

  /** Reading back under the same keys. */
  lemma RoundTrip(keys: Keys, value: Bytes, nonce: Bytes)
    requires keys.primary.cipher.Some? && Correct(keys.primary.cipher.value)
    requires |nonce| == keys.primary.cipher.value.nonceSize
    ensures TryDecrypt(keys, TryEncrypt(keys, value, Some(nonce)).value) == Ok(value) <==> Legible(keys.primary.name)
  {
    RecordsCanBeRead(keys, keys, value, nonce);
  }

  /** Reading back after a rotation, which makes the old primary key the secondary one. */
  lemma RoundTripAfterRotation(keys: Keys, primary: Key, value: Bytes, nonce: Bytes)
    requires keys.primary.cipher.Some? && Correct(keys.primary.cipher.value)
    requires |nonce| == keys.primary.cipher.value.nonceSize
    requires primary.name != keys.primary.name
    ensures TryDecrypt(Keys(primary, keys.primary), TryEncrypt(keys, value, Some(nonce)).value) == Ok(value) <==>
            Legible(keys.primary.name)
  {
    RecordsCanBeRead(keys, Keys(primary, keys.primary), value, nonce);
  }

  /** A record whose key is configured no more is refused, whatever it holds. */
  lemma ForgottenKey(keys: Keys, later: Keys, value: Bytes, nonce: Bytes)
    requires keys.primary.cipher.Some? && Legible(keys.primary.name)
    requires later.primary.name != keys.primary.name && later.secondary.name != keys.primary.name
    ensures TryDecrypt(later, TryEncrypt(keys, value, Some(nonce)).value) == Err(NoSuchKey)
  {
    var sealed := Encrypt(value, keys.primary.cipher.value, nonce);
    NoBarInEncoding(sealed);
    LegibleRecord(later, Encode(sealed), keys.primary.name);
  }

  /** Without the condition on names the round trip is lost: a name that starts with a bar is read without it. */
  lemma BarAtTheStartOfAName(c: Cipher, value: Bytes, nonce: Bytes)
    requires Correct(c) && |nonce| == c.nonceSize
    ensures TryDecrypt(Keys(Key([BAR, 107], Some(c)), NO_KEY),
                       TryEncrypt(Keys(Key([BAR, 107], Some(c)), NO_KEY), value, Some(nonce)).value) != Ok(value)
  {
    RoundTrip(Keys(Key([BAR, 107], Some(c)), NO_KEY), value, nonce);
  }

  // ----- the stores -----

  /** The keys of the encrypted state stores of a process. */
  class EncryptedStateStores {
    var stores: map<string, Keys>

    constructor ()
      ensures stores == map[]
    {
      stores := map[];
    }

    /** Keys are set once: a second call for a store changes nothing and says so. */
    method Add(storeName: string, keys: Keys) returns (added: bool)
      modifies this
      ensures added <==> storeName !in old(stores)
      ensures stores == if added then old(stores)[storeName := keys] else old(stores)
    {
      if storeName in stores {
        return false;
      }
      stores := stores[storeName := keys];
      return true;
    }

    /** Reading a Go map: a store that was not added has keys without names and ciphers. */
    function KeysOf(storeName: string): (keys: Keys)
      reads this
    {
      if storeName in stores then stores[storeName] else Keys(NO_KEY, NO_KEY)
    }

    function TryEncryptValue(storeName: string, value: Bytes, nonce: Option<Bytes>): (r: Result)
      reads this
    {
      TryEncrypt(KeysOf(storeName), value, nonce)
    }

    function TryDecryptValue(storeName: string, value: Bytes): (r: Result)
      reads this
    {
      TryDecrypt(KeysOf(storeName), value)
    }

    /** A store without keys does not pass values through: reading gives a value back exactly when it is empty and else
        an error, and writing panics. */
    lemma WithoutKeys(storeName: string, value: Bytes, nonce: Option<Bytes>)
      requires storeName !in stores
      ensures TryDecryptValue(storeName, value) == Ok(value) <==> value == []
      ensures value != [] ==> TryDecryptValue(storeName, value).Err?
      ensures TryEncryptValue(storeName, value, nonce) == Panics
    {
      var i := LastSeparator(value);
      if 0 <= i && i + 2 < |value| {
        assert value[i + 2..] != [];
      }
    }

    /** What a store with a correct primary cipher writes, it reads back, exactly when the key's name is legible. */
    lemma WithKeys(storeName: string, value: Bytes, nonce: Bytes)
      requires storeName in stores && stores[storeName].primary.cipher.Some?
      requires Correct(stores[storeName].primary.cipher.value)
      requires |nonce| == stores[storeName].primary.cipher.value.nonceSize
      ensures TryEncryptValue(storeName, value, Some(nonce)).Ok?
      ensures TryDecryptValue(storeName, TryEncryptValue(storeName, value, Some(nonce)).value) == Ok(value) <==>
              Legible(stores[storeName].primary.name)
    {
      RecordsCanBeRead(stores[storeName], stores[storeName], value, nonce);
    }
  }
}
