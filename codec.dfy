/** The keyed Caesar codec of the bot (`encrypt` and `decrypt` in
    my_bot/my_bot.py). The key is read through its decimal string: the
    character at position i is shifted by the digit at position
    i mod len(str(key)). Four alphabets are rotated inside themselves
    (a-z and A-Z modulo 26, Cyrillic а-я and А-Я modulo 32); every other
    character passes through. This is a reversible encoding, not encryption
    in any confidentiality sense. */
module Codec {
  import opened Wrappers

  /** The only failure of the codec: `int()` applied to the '-' of a
      negative key's decimal string raises ValueError. */
  datatype CodecError = NotADigit

  /** `encrypt` adds the shift, `decrypt` subtracts it. */
  datatype Direction = Forward | Backward

  datatype Alphabet = LowerLatin | UpperLatin | LowerCyrillic | UpperCyrillic

  /** The alphabet a character belongs to, tested in the order of the
      source's if/elif chain; None for every character that passes through. */
  function AlphabetOf(c: char): Option<Alphabet> {
    if 'a' <= c <= 'z' then Some(LowerLatin)
    else if 'A' <= c <= 'Z' then Some(UpperLatin)
    else if 'а' <= c <= 'я' then Some(LowerCyrillic)
    else if 'А' <= c <= 'Я' then Some(UpperCyrillic)
    else None
  }

  function FirstLetter(a: Alphabet): char {
    match a
    case LowerLatin => 'a'
    case UpperLatin => 'A'
    case LowerCyrillic => 'а'
    case UpperCyrillic => 'А'
  }

  function AlphabetSize(a: Alphabet): (n: nat)
    ensures 0 < n && FirstLetter(a) as int + n <= 0x0450
  {
    match a
    case LowerLatin => 26
    case UpperLatin => 26
    case LowerCyrillic => 32
    case UpperCyrillic => 32
  }

  /** `chr((ord(c) - ord(first) + delta) % size + ord(first))`; Python's `%`
      with a positive modulus agrees with Dafny's Euclidean `%`. */
  function Rotate(c: char, first: char, size: nat, delta: int): (r: char)
    requires 0 < size && first as int + size <= 0x0450
    ensures first <= r && r as int < first as int + size
  {
    (first as int + (c as int - first as int + delta) % size) as char
  }

  /** One character of `encrypt` (Forward) or `decrypt` (Backward). It keeps
      every letter inside its own alphabet and leaves every other character
      alone. */
  function ShiftChar(c: char, shift: int, dir: Direction): (r: char)
    ensures AlphabetOf(r) == AlphabetOf(c)
    ensures AlphabetOf(c).None? ==> r == c
  {
    match AlphabetOf(c)
    case None => c
    case Some(a) =>
      Rotate(c, FirstLetter(a), AlphabetSize(a), if dir == Forward then shift else -shift)
  }

  // ---------------------------------------------------------------------
  // Python's str() of an integer, and its inverse

  function DigitChar(d: nat): char
    requires d < 10
  {
    ('0' as int + d) as char
  }

  predicate IsDigit(c: char) {
    '0' <= c <= '9'
  }

  /** `int(c)` for the one-character strings taken out of `str(key)`. */
  function DigitValue(c: char): (r: Option<nat>)
    ensures r.Some? <==> IsDigit(c)
    ensures r.Some? ==> r.value < 10 && DigitChar(r.value) == c
  {
    if IsDigit(c) then Some(c as int - '0' as int) else None
  }

  /** Decimal digits of a natural number, without leading zeros. */
  function Digits(n: nat): (s: string)
    decreases n
  {
    if n < 10 then [DigitChar(n)] else Digits(n / 10) + [DigitChar(n % 10)]
  }

  /** `str(n)` for a Python int. */
  function DecimalString(n: int): string {
    if n < 0 then "-" + Digits(-n) else Digits(n)
  }

  /** Reads back a string of decimal digits. */
  function ParseDigits(s: string): Option<nat>
    decreases |s|
  {
    if s == [] then None
    else
      match DigitValue(s[|s| - 1])
      case None => None
      case Some(d) =>
        if |s| == 1 then Some(d)
        else
          match ParseDigits(s[..|s| - 1])
          case None => None
          case Some(p) => Some(10 * p + d)
  }

  /** Reads back an optionally negative decimal string. */
  function ParseDecimal(s: string): Option<int> {
    if |s| > 0 && s[0] == '-' then
      match ParseDigits(s[1..])
      case None => None
      case Some(p) => Some(0 - p)
    else
      match ParseDigits(s)
      case None => None
      case Some(p) => Some(p)
  }

  lemma {:induction false} DigitsShape(n: nat)
    ensures |Digits(n)| >= 1
    ensures forall i :: 0 <= i < |Digits(n)| ==> IsDigit(Digits(n)[i])
    decreases n
  {
    if n >= 10 {
      DigitsShape(n / 10);
    }
  }

  lemma {:induction false} ParseDigitsOfDigits(n: nat)
    ensures ParseDigits(Digits(n)) == Some(n)
    decreases n
  {
    DigitsShape(n);
    if n >= 10 {
      var s := Digits(n);
      DigitsShape(n / 10);
      assert s[..|s| - 1] == Digits(n / 10);
      ParseDigitsOfDigits(n / 10);
      assert DigitValue(s[|s| - 1]) == Some(n % 10);
    }
  }

  /** `str(n)` is non-empty, starts with '-' exactly for negative numbers,
      and holds nothing but decimal digits after that sign. */
  lemma DecimalStringShape(n: int)
    ensures |DecimalString(n)| >= 1
    ensures DecimalString(n)[0] == '-' <==> n < 0
    ensures forall i :: 0 <= i < |DecimalString(n)| && (i > 0 || n >= 0) ==> IsDigit(DecimalString(n)[i])
  {
    if n < 0 {
      DigitsShape(-n);
      assert DecimalString(n) == "-" + Digits(-n);
    } else {
      DigitsShape(n);
    }
  }

  /** `str` is reversible on integers, so distinct chat ids are stored as
      distinct strings. */
  lemma DecimalStringRoundTrip(n: int)
    ensures ParseDecimal(DecimalString(n)) == Some(n)
  {
    if n < 0 {
      DigitsShape(-n);
      assert DecimalString(n)[1..] == Digits(-n);
      ParseDigitsOfDigits(-n);
    } else {
      DigitsShape(n);
      ParseDigitsOfDigits(n);
    }
  }

  lemma DecimalStringInjective(m: int, n: int)
    ensures DecimalString(m) == DecimalString(n) <==> m == n
  {
    if DecimalString(m) == DecimalString(n) {
      DecimalStringRoundTrip(m);
      DecimalStringRoundTrip(n);
    }
  }

  // ---------------------------------------------------------------------
  // The codec

  /** The shift at position i: `int(str(key)[i % len(str(key))])`, None when
      that character is the '-' of a negative key. */
  function KeyShift(key: int, i: nat): (r: Option<nat>)
    ensures key >= 0 ==> r.Some?
    ensures key < 0 ==> (r.None? <==> i % (1 + |Digits(-key)|) == 0)
    ensures r.Some? ==> r.value < 10
  {
    var keyText := DecimalString(key);
    DecimalStringShape(key);
    DigitValue(keyText[i % |keyText|])
  }

  /** What `encrypt(text, key)` (Forward) or `decrypt(text, key)` (Backward)
      returns: Err when some position reads a non-digit of `str(key)`, and
      otherwise the text shifted position by position. Either way the result
      has the text's length and keeps every character in its alphabet. */
  function Caesar(text: string, key: int, dir: Direction): (r: Result<string, CodecError>)
    ensures r.Err? <==> exists i :: 0 <= i < |text| && KeyShift(key, i).None?
    ensures r.Ok? ==> |r.value| == |text|
    ensures r.Ok? ==> forall i :: 0 <= i < |text| ==>
                        AlphabetOf(r.value[i]) == AlphabetOf(text[i]) &&
                        (AlphabetOf(text[i]).None? ==> r.value[i] == text[i])
  {
    if exists i :: 0 <= i < |text| && KeyShift(key, i).None? then Err(NotADigit)
    else Ok(seq(|text|, i requires 0 <= i < |text| => ShiftChar(text[i], KeyShift(key, i).value, dir)))
  }

  /** `encrypt` (my_bot/my_bot.py:29-58): the loop, appending one character per
      position to an accumulator. */
  method Encrypt(text: string, key: int) returns (r: Result<string, CodecError>)
    ensures r == Caesar(text, key, Forward)
  {
    var keyText := DecimalString(key);
    DecimalStringShape(key);
    var encrypted := "";
    for i := 0 to |text|
      invariant |encrypted| == i
      invariant forall j :: 0 <= j < i ==>
                  KeyShift(key, j).Some? && encrypted[j] == ShiftChar(text[j], KeyShift(key, j).value, Forward)
    {
      var shift := DigitValue(keyText[i % |keyText|]);
      if shift.None? {
        assert KeyShift(key, i).None?;
        return Err(NotADigit);
      }
      encrypted := encrypted + [ShiftChar(text[i], shift.value, Forward)];
    }
    r := Ok(encrypted);
    assert Caesar(text, key, Forward).Ok?;
    assert Caesar(text, key, Forward).value == encrypted;
  }

  /** `decrypt`: the same loop, subtracting the shift. */
  method Decrypt(text: string, key: int) returns (r: Result<string, CodecError>)
    ensures r == Caesar(text, key, Backward)
  {
    var keyText := DecimalString(key);
    DecimalStringShape(key);
    var decrypted := "";
    for i := 0 to |text|
      invariant |decrypted| == i
      invariant forall j :: 0 <= j < i ==>
                  KeyShift(key, j).Some? && decrypted[j] == ShiftChar(text[j], KeyShift(key, j).value, Backward)
    {
      var shift := DigitValue(keyText[i % |keyText|]);
      if shift.None? {
        assert KeyShift(key, i).None?;
        return Err(NotADigit);
      }
      decrypted := decrypted + [ShiftChar(text[i], shift.value, Backward)];
    }
    r := Ok(decrypted);
    assert Caesar(text, key, Backward).Ok?;
    assert Caesar(text, key, Backward).value == decrypted;
  }

  // ---------------------------------------------------------------------
  // Properties

  lemma ZeroMultiple(d: int, n: int)
    requires 0 < n && -n < d * n < n
    ensures d == 0
  {
  }

  lemma ModAddMultiple(o: int, k: int, n: int)
    requires 0 <= o < n
    ensures (o + k * n) % n == o
  {
    var x := o + k * n;
    var q, r := x / n, x % n;
    assert x == q * n + r && 0 <= r < n;
    var d := q - k;
    assert d * n == q * n - k * n;
    assert d * n == o - r;
    ZeroMultiple(d, n);
  }

  lemma RotateBack(c: char, first: char, size: nat, delta: int)
    requires 0 < size && first as int + size <= 0x0450
    requires first <= c && c as int < first as int + size
    ensures Rotate(Rotate(c, first, size, delta), first, size, -delta) == c
  {
    var o := c as int - first as int;
    var m := (o + delta) % size;
    var q := (o + delta) / size;
    assert o + delta == q * size + m;
    assert m - delta == o + (-q) * size;
    ModAddMultiple(o, -q, size);
  }

  /** Subtracting a shift undoes adding it, and adding undoes subtracting. */
  lemma ShiftCharRoundTrip(c: char, shift: int)
    ensures ShiftChar(ShiftChar(c, shift, Forward), shift, Backward) == c
    ensures ShiftChar(ShiftChar(c, shift, Backward), shift, Forward) == c
  {
    match AlphabetOf(c)
    case None =>
    case Some(a) =>
      RotateBack(c, FirstLetter(a), AlphabetSize(a), shift);
      RotateBack(c, FirstLetter(a), AlphabetSize(a), -shift);
  }

  function Pow10(e: nat): (p: nat)
    ensures p > 0
  {
    if e == 0 then 1 else 10 * Pow10(e - 1)
  }

  lemma DivUnique(x: int, m: int, q: int, r: int)
    requires 0 < m && 0 <= r < m && x == m * q + r
    ensures x / m == q
  {
    var d := q - x / m;
    assert x == m * (x / m) + x % m;
    assert d * m == m * q - m * (x / m);
    ZeroMultiple(d, m);
  }

  lemma DivDiv(n: nat, p: nat)
    requires p > 0
    ensures n / (10 * p) == (n / 10) / p
  {
    var a, b := n / 10, n % 10;
    var q, r := a / p, a % p;
    assert a == p * q + r;
    assert n == 10 * a + b;
    assert n == (10 * p) * q + (10 * r + b);
    assert 10 * r + b < 10 * p;
    DivUnique(n, 10 * p, q, 10 * r + b);
  }

  /** Position j of `str(n)` is the digit of weight 10^(len - 1 - j). */
  lemma {:induction false} DigitAt(n: nat, j: nat)
    requires j < |Digits(n)|
    ensures DigitValue(Digits(n)[j]) == Some((n / Pow10(|Digits(n)| - 1 - j)) % 10)
    decreases n
  {
    if n >= 10 {
      var s := Digits(n);
      var prefix := Digits(n / 10);
      assert s == prefix + [DigitChar(n % 10)];
      if j == |s| - 1 {
        assert s[j] == DigitChar(n % 10);
      } else {
        assert s[j] == prefix[j];
        DigitAt(n / 10, j);
        var e := |prefix| - 1 - j;
        assert |s| - 1 - j == e + 1;
        DivDiv(n, Pow10(e));
      }
    }
  }

  /** The shift used at position i of a text is the digit of the key found
      at position i mod len(str(key)), counted from the most significant. */
  lemma KeyShiftIsKeyDigit(key: int, i: nat)
    requires key >= 0
    ensures var len := |Digits(key)|;
            KeyShift(key, i) == Some((key / Pow10(len - 1 - i % len)) % 10)
  {
    DigitsShape(key);
    DigitAt(key, i % |Digits(key)|);
  }

  /** Every position of a non-negative key's string is a digit, so the codec
      never fails for such a key. */
  lemma NonNegativeKeyShifts(key: int, i: nat)
    requires key >= 0
    ensures KeyShift(key, i).Some? && KeyShift(key, i).value < 10
  {
    DecimalStringShape(key);
  }

  lemma NonNegativeKeyTotal(text: string, key: int, dir: Direction)
    requires key >= 0
    ensures Caesar(text, key, dir).Ok?
  {
    forall i | 0 <= i < |text| ensures KeyShift(key, i).Some? {
      NonNegativeKeyShifts(key, i);
    }
  }

  /** decrypt(encrypt(s, k), k) == s for every text and non-negative key. */
  lemma DecryptEncrypt(text: string, key: int)
    requires key >= 0
    ensures Caesar(text, key, Forward).Ok?
    ensures Caesar(Caesar(text, key, Forward).value, key, Backward) == Ok(text)
  {
    NonNegativeKeyTotal(text, key, Forward);
    var e := Caesar(text, key, Forward).value;
    NonNegativeKeyTotal(e, key, Backward);
    var d := Caesar(e, key, Backward).value;
    forall i | 0 <= i < |text| ensures d[i] == text[i] {
      ShiftCharRoundTrip(text[i], KeyShift(key, i).value);
    }
    assert d == text;
  }

  /** encrypt(decrypt(s, k), k) == s as well: the codec is a bijection on
      strings for every non-negative key. */
  lemma EncryptDecrypt(text: string, key: int)
    requires key >= 0
    ensures Caesar(text, key, Backward).Ok?
    ensures Caesar(Caesar(text, key, Backward).value, key, Forward) == Ok(text)
  {
    NonNegativeKeyTotal(text, key, Backward);
    var d := Caesar(text, key, Backward).value;
    NonNegativeKeyTotal(d, key, Forward);
    var e := Caesar(d, key, Forward).value;
    forall i | 0 <= i < |text| ensures e[i] == text[i] {
      ShiftCharRoundTrip(text[i], KeyShift(key, i).value);
    }
    assert e == text;
  }

  /** A negative key fails on every non-empty text (position 0 reads the
      '-' of `str(key)`) and on the empty text returns the empty text. */
  lemma NegativeKey(text: string, key: int, dir: Direction)
    requires key < 0
    ensures Caesar(text, key, dir).Err? <==> |text| > 0
    ensures text == [] ==> Caesar(text, key, dir) == Ok([])
  {
    DecimalStringShape(key);
    if |text| > 0 {
      assert KeyShift(key, 0).None?;
    }
  }

  /** Key 0 reads as the single digit 0: every character stays put. */
  lemma KeyZeroIsIdentity(text: string, dir: Direction)
    ensures Caesar(text, 0, dir) == Ok(text)
  {
    assert DecimalString(0) == "0";
    NonNegativeKeyTotal(text, 0, dir);
    var r := Caesar(text, 0, dir).value;
    forall i | 0 <= i < |text| ensures r[i] == text[i] {
      assert KeyShift(0, i) == Some(0);
      var c := text[i];
      match AlphabetOf(c)
      case None =>
      case Some(a) =>
        ModAddMultiple(c as int - FirstLetter(a) as int, 0, AlphabetSize(a));
    }
    assert r == text;
  }

  predicate HasNoLetter(text: string) {
    forall i :: 0 <= i < |text| ==> AlphabetOf(text[i]).None?
  }

  /** A text without letters, such as the decimal form of a chat id, is
      returned unchanged by any non-negative key. */
  lemma NoLetterUnchanged(text: string, key: int, dir: Direction)
    requires key >= 0 && HasNoLetter(text)
    ensures Caesar(text, key, dir) == Ok(text)
  {
    NonNegativeKeyTotal(text, key, dir);
    assert Caesar(text, key, dir).value == text;
  }

  /** `encrypt(chat_id, chat_id)` is `str(chat_id)` for a non-negative chat
      id, and raises for a negative one. */
  lemma EncryptedChatId(chatId: int)
    ensures chatId >= 0 ==> Caesar(DecimalString(chatId), chatId, Forward) == Ok(DecimalString(chatId))
    ensures chatId < 0 ==> Caesar(DecimalString(chatId), chatId, Forward).Err?
  {
    DecimalStringShape(chatId);
    if chatId >= 0 {
      forall i | 0 <= i < |DecimalString(chatId)| ensures AlphabetOf(DecimalString(chatId)[i]).None? {
      }
      NoLetterUnchanged(DecimalString(chatId), chatId, Forward);
    } else {
      NegativeKey(DecimalString(chatId), chatId, Forward);
    }
  }

  /** `startswith("/")`. */
  predicate IsCommandText(text: string) {
    |text| > 0 && text[0] == '/'
  }

  /** The stored (encrypted) message starts with '/' exactly when the
      plaintext does, so filtering commands on the stored column filters
      them on the plaintext. */
  lemma CommandPrefixKept(text: string, key: int, dir: Direction)
    requires Caesar(text, key, dir).Ok?
    ensures IsCommandText(Caesar(text, key, dir).value) <==> IsCommandText(text)
  {
    var r := Caesar(text, key, dir).value;
    if |text| > 0 {
      assert AlphabetOf(r[0]) == AlphabetOf(text[0]);
      assert AlphabetOf('/').None?;
    }
  }
}
