/** The SED cipher and its messages (source/encrypt.c). */
module SedCipher {
  import opened CtcpText

  const CRYPT_BUFFER_SIZE := IRCD_BUFFER_SIZE - 50
  const SED: Text := [83, 69, 68]

  /** The exclusive or of the first `n` characters. */
  function Mix(text: Text, n: nat): Char
    requires n <= |text|
  {
    if n == 0 then 0 else Mix(text, n - 1) ^ text[n - 1]
  }

  /** The key repeats. */
  function KeyPos(i: nat, n: nat): (p: nat)
    requires n > 0
    ensures p < n
  {
    i % n
  }

  function KeyAt(key: Text, i: nat): Char
    requires key != []
  {
    key[KeyPos(i, |key|)]
  }

  /** Each byte hides all plain bytes up to it behind one key byte. */
  function Encrypted(text: Text, key: Text): (r: Text)
    requires key != []
    ensures |r| == |text|
  {
    seq(|text|, i requires 0 <= i < |text| => Mix(text, i + 1) ^ KeyAt(key, i))
  }

  /** A cipher byte without its key byte. */
  function Bare(cipher: Text, key: Text, n: nat): Char
    requires key != [] && n <= |cipher|
  {
    if n == 0 then 0 else cipher[n - 1] ^ KeyAt(key, n - 1)
  }

  function Decrypted(cipher: Text, key: Text): (r: Text)
    requires key != []
    ensures |r| == |cipher|
  {
    seq(|cipher|, i requires 0 <= i < |cipher| => Bare(cipher, key, i) ^ Bare(cipher, key, i + 1))
  }

  /** The bytes of the cipher in terms of the text and the repeated key. */
  lemma CipherBytes(text: Text, key: Text, i: nat)
    requires key != [] && i < |text|
    ensures var c := Encrypted(text, key);
            c[i] == if i == 0 then text[0] ^ key[0]
                    else c[i - 1] ^ key[(i - 1) % |key|] ^ text[i] ^ key[i % |key|]
  {
    hide *;
    CipherAt(text, key, i);
    if i == 0 {
      MixBytes(text[0], key[0], 0, 0);
      NextKey(0, |key|);
    } else {
      CipherAt(text, key, i - 1);
      MixBytes(Mix(text, i), key[(i - 1) % |key|], text[i], key[i % |key|]);
    }
  }

  lemma CipherAt(text: Text, key: Text, i: nat)
    requires key != [] && i < |text|
    ensures Encrypted(text, key)[i] == (Mix(text, i) ^ text[i]) ^ key[i % |key|]
    ensures i > 0 ==> Mix(text, i) == Mix(text, i - 1) ^ text[i - 1]
    ensures KeyPos(0, |key|) == 0 % |key| && Mix(text, 0) == 0
  {
  }

  lemma MixBytes(m: Char, k: Char, x: Char, l: Char)
    ensures (m ^ x) ^ l == (m ^ k) ^ k ^ x ^ l && 0 ^ m == m
  {
  }

  /** my_encrypt, in place. */
  method Encrypt(str: array<Char>, len: nat, key: Text)
    requires key != [] && len < str.Length
    modifies str
    ensures str[..len] == Encrypted(old(str[..len]), key) && str[len] == NUL
    ensures forall k :: len < k < str.Length ==> str[k] == old(str[k])
  {
    hide Encrypted, KeyPos;
    ghost var text := str[..len];
    var keyPos, mix := 0, 0;
    NextKey(0, |key|);
    for i := 0 to len
      invariant keyPos == KeyPos(i, |key|) && mix == Mix(text, i)
      invariant forall k :: 0 <= k < i ==> str[k] == Mix(text, k + 1) ^ KeyAt(key, k)
      invariant forall k :: i <= k < str.Length ==> str[k] == old(str[k])
    {
      var tmp := str[i];
      assert tmp == text[i];
      str[i] := mix ^ tmp ^ key[keyPos];
      mix := mix ^ tmp;
      NextKey(i, |key|);
      keyPos := (keyPos + 1) % |key|;
    }
    EncryptedIs(text, key, str[..len]);
    str[len] := NUL;
  }

  /** my_decrypt, in place. */
  method Decrypt(str: array<Char>, len: nat, key: Text)
    requires key != [] && len < str.Length
    modifies str
    ensures str[..len] == Decrypted(old(str[..len]), key) && str[len] == NUL
    ensures forall k :: len < k < str.Length ==> str[k] == old(str[k])
  {
    hide Decrypted, KeyPos;
    ghost var cipher := str[..len];
    var keyPos, mix := 0, 0;
    NextKey(0, |key|);
    for i := 0 to len
      invariant keyPos == KeyPos(i, |key|) && mix == Bare(cipher, key, i)
      invariant forall k :: 0 <= k < i ==> str[k] == Bare(cipher, key, k) ^ Bare(cipher, key, k + 1)
      invariant forall k :: i <= k < str.Length ==> str[k] == old(str[k])
    {
      assert str[i] == cipher[i];
      var tmp := mix ^ str[i] ^ key[keyPos];
      str[i] := tmp;
      mix := mix ^ tmp;
      NextKey(i, |key|);
      keyPos := (keyPos + 1) % |key|;
    }
    DecryptedIs(cipher, key, str[..len]);
    str[len] := NUL;
  }

  lemma NextKey(i: nat, n: nat)
    requires n > 0
    ensures KeyPos(0, n) == 0 && (KeyPos(i, n) + 1) % n == KeyPos(i + 1, n)
  {
    var q, r := i / n, i % n;
    assert i == q * n + r;
    Remainder(0, n, 0, 0);
    if r + 1 < n {
      Remainder(i + 1, n, q, r + 1);
      Remainder(r + 1, n, 0, r + 1);
    } else {
      assert i + 1 == (q + 1) * n;
      Remainder(i + 1, n, q + 1, 0);
      Remainder(r + 1, n, 1, 0);
    }
  }

  lemma Remainder(i: nat, n: nat, q: nat, r: nat)
    requires n > 0 && i == q * n + r && r < n
    ensures i % n == r
  {
    var d: int := i / n - q;
    assert d * n == r - i % n;
    if d != 0 {
      FarFromZero(d, n);
    }
  }

  lemma FarFromZero(d: int, n: nat)
    requires n > 0 && d != 0
    ensures d * n >= n || d * n + n <= 0
  {
    if d >= 1 {
      assert (d - 1) * n >= 0;
    } else {
      assert (-d - 1) * n >= 0;
    }
  }

  lemma EncryptedIs(text: Text, key: Text, s: Text)
    requires key != [] && |s| == |text|
    requires forall k :: 0 <= k < |s| ==> s[k] == Mix(text, k + 1) ^ KeyAt(key, k)
    ensures s == Encrypted(text, key)
  {
  }

  lemma DecryptedIs(cipher: Text, key: Text, s: Text)
    requires key != [] && |s| == |cipher|
    requires forall k :: 0 <= k < |s| ==> s[k] == Bare(cipher, key, k) ^ Bare(cipher, key, k + 1)
    ensures s == Decrypted(cipher, key)
  {
  }

  // ---- The two are inverse ----------------------------------------------------

  lemma BareOfEncrypted(text: Text, key: Text, n: nat)
    requires key != [] && n <= |text|
    ensures Bare(Encrypted(text, key), key, n) == Mix(text, n)
  {
  }

  /** Decrypting undoes encrypting, whatever the bytes. */
  lemma DecryptUndoes(text: Text, key: Text)
    requires key != []
    ensures Decrypted(Encrypted(text, key), key) == text
  {
    var c := Encrypted(text, key);
    forall i | 0 <= i < |text| ensures Decrypted(c, key)[i] == text[i] {
      BareOfEncrypted(text, key, i);
      BareOfEncrypted(text, key, i + 1);
    }
  }

  lemma {:induction false} MixOfDecrypted(cipher: Text, key: Text, n: nat)
    requires key != [] && n <= |cipher|
    ensures Mix(Decrypted(cipher, key), n) == Bare(cipher, key, n)
  {
    if n == 0 {
    } else {
      MixOfDecrypted(cipher, key, n - 1);
    }
  }

  /** Encrypting undoes decrypting: no two ciphertexts hide the same text. */
  lemma EncryptUndoes(cipher: Text, key: Text)
    requires key != []
    ensures Encrypted(Decrypted(cipher, key), key) == cipher
  {
    forall i | 0 <= i < |cipher| ensures Encrypted(Decrypted(cipher, key), key)[i] == cipher[i] {
      MixOfDecrypted(cipher, key, i + 1);
    }
  }

  // ---- Messages -----------------------------------------------------------------

  /** crypt_msg: the frame around the quoted cipher bytes. */
  function Message(text: Text, key: Text): Text
    requires key != []
  {
    var head := Cat([], [DELIM] + SED + [SPACE], CRYPT_BUFFER_SIZE);
    Cat(Cat(head, Quote(Encrypted(text, key)), CRYPT_BUFFER_SIZE - 1), [DELIM], CRYPT_BUFFER_SIZE)
  }

  /** decrypt_msg on the argument of a frame. */
  function Opened(arg: Text, key: Text): Text
    requires key != []
  {
    Copy(CString(Decrypted(Unquote(arg), key)), CRYPT_BUFFER_SIZE)
  }

  /** strlen */
  method StrLen(str: array<Char>) returns (len: nat)
    requires NUL in str[..]
    ensures len < str.Length && str[len] == NUL && NUL !in str[..len]
  {
    ghost var end :| 0 <= end < str.Length && str[end] == NUL;
    len := 0;
    while str[len] != NUL
      invariant len <= end && NUL !in str[..len]
      decreases end - len
    {
      len := len + 1;
    }
  }

  /** crypt_msg; the caller's string is overwritten. */
  method CryptMsg(str: array<Char>, key: Text) returns (buffer: Text)
    requires NUL in str[..] && key != []
    modifies str
    ensures buffer == Message(old(CString(str[..])), key)
  {
    var c := StrLen(str);
    CStringIs(str[..], c);
    Encrypt(str, c, key);
    var ptr := QuoteIt(str[..c]);
    buffer := Cat([], [DELIM] + SED + [SPACE], CRYPT_BUFFER_SIZE);
    buffer := Cat(buffer, ptr, CRYPT_BUFFER_SIZE - 1);
    buffer := Cat(buffer, [DELIM], CRYPT_BUFFER_SIZE);
  }

  lemma CStringIs(s: Text, c: nat)
    requires c < |s| && s[c] == NUL && NUL !in s[..c]
    ensures CString(s) == s[..c]
  {
    forall k | 0 <= k < c ensures s[k] != NUL {
      assert s[k] == s[..c][k];
    }
  }

  /** decrypt_msg */
  method DecryptMsg(arg: Text, key: Text) returns (buffer: Text)
    requires key != []
    ensures buffer == Opened(arg, key)
  {
    var ptr := UnquoteIt(arg);
    var a := new Char[|ptr| + 1](i requires 0 <= i => if i < |ptr| then ptr[i] else NUL);
    assert a[..|ptr|] == ptr;
    Decrypt(a, |ptr|, key);
    buffer := Copy(CString(a[..|ptr|]), CRYPT_BUFFER_SIZE);
  }

  /** The quoted bytes that fit between the head and the closing delimiter. */
  const ROOM: nat := CRYPT_BUFFER_SIZE - 1 - 5

  lemma MessageIs(text: Text, key: Text)
    requires key != []
    ensures var q := Quote(Encrypted(text, key));
            Message(text, key) == [DELIM] + (SED + [SPACE] + Copy(q, ROOM)) + [DELIM]
  {
    var q := Quote(Encrypted(text, key));
    var head := [DELIM] + SED + [SPACE];
    assert Cat([], head, CRYPT_BUFFER_SIZE) == head;
    assert Cat(head, q, CRYPT_BUFFER_SIZE - 1) == head + Copy(q, ROOM);
  }

  lemma NoNul(s: Text)
    requires NUL !in s
    ensures CString(s) == s
  {
  }

  /** A text and its frame: the argument of the message opens to the text exactly
      when the quoted bytes fit, or when only the letter behind the quote of a
      final NUL byte is cut off. */
  lemma RoundTrip(text: Text, key: Text)
    requires key != [] && NUL !in text
    ensures var c := Encrypted(text, key);
            Opened(Copy(Quote(c), ROOM), key) == text <==>
              |Quote(c)| <= ROOM || (|Quote(c)| == ROOM + 1 && c[|c| - 1] == NUL)
  {
    var c := Encrypted(text, key);
    var q := Quote(c);
    var n := if |q| <= ROOM then |q| else ROOM;
    var u := Unquote(Copy(q, ROOM));
    assert Copy(q, ROOM) == q[..n];
    CutLoses(c, n);
    DecryptUndoes(text, key);
    NoNul(text);
    hide Quote, Unquote, Encrypted, Decrypted, Special;
    QuoteClean(c);
    if |text| > CRYPT_BUFFER_SIZE {
      assert |Opened(Copy(q, ROOM), key)| <= CRYPT_BUFFER_SIZE;
    } else if u != c {
      EncryptUndoes(u, key);
      ShorterDiffers(c, q, n, u, text, key);
    }
  }

  /** No text that is longer than the room for its quoted bytes opens to itself,
      whatever the key. */
  lemma LongIsLost(text: Text, key: Text)
    requires key != [] && NUL !in text && |text| > ROOM + 1
    ensures Opened(Copy(Quote(Encrypted(text, key)), ROOM), key) != text
  {
    RoundTrip(text, key);
    QuoteClean(Encrypted(text, key));
  }

  /** A cut message opens to something else. */
  lemma ShorterDiffers(c: Text, q: Text, n: nat, u: Text, text: Text, key: Text)
    requires key != [] && NUL !in text && u != c && c == Encrypted(text, key)
    requires q == Quote(c) && n <= |q| && u == Unquote(q[..n])
    ensures Copy(CString(Decrypted(u, key)), CRYPT_BUFFER_SIZE) != text
  {
    var m, split := CutQuote(c, n);
    var d := Decrypted(u, key);
    EncryptUndoes(u, key);
    assert |d| <= |text|;
    hide Encrypted, Decrypted, Quote, Unquote;
    if |CString(d)| == |text| {
      assert CString(d) == d;
    }
  }
}
