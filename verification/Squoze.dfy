/** Squoze: names of up to twelve characters of a 40-character alphabet packed in a 64-bit word, the
    first character in the most significant place. */
module Squoze {

  newtype u64 = x: int | 0 <= x < 0x1_0000_0000_0000_0000

  const PLACES: nat := 12
  const WORD: nat := 0x1_0000_0000_0000_0000
  const LIMIT: nat := 16777216000000000000
  const CUT: u64 := 419430400000000000

  predicate Letter(c: char) { 'A' <= c <= 'Z' }
  predicate Small(c: char) { 'a' <= c <= 'z' }
  predicate Figure(c: char) { '0' <= c <= '9' }

  function ChEnc(c: char): nat {
    if Letter(c) then (c as int - 'A' as int) + 1
    else if Small(c) then (c as int - 'a' as int) + 1
    else if Figure(c) then (c as int - '0' as int) + 30
    else if c == ' ' then 0
    else if c == '$' then 27
    else if c == '.' then 28
    else 29
  }

  function ChDec(d: nat): char
    requires d < 40
  {
    if d == 0 then ' '
    else if d <= 26 then ('A' as int + d - 1) as char
    else if d >= 30 then ('0' as int + d - 30) as char
    else if d == 27 then '$'
    else if d == 28 then '.'
    else '_'
  }

  /** The character a name shows for c: capital letters, figures, blank, dollar and dot as they are,
      small letters as capitals, anything else as an underscore. */
  function Shown(c: char): char {
    if Small(c) then (c as int - 'a' as int + 'A' as int) as char
    else if Letter(c) || Figure(c) || c in {' ', '$', '.'} then c
    else '_'
  }

  /** The forty characters, in the order of their codes. */
  const ALPHABET := " ABCDEFGHIJKLMNOPQRSTUVWXYZ$._0123456789"

  lemma AlphabetIs(d: nat, c: char)
    requires d < 40
    ensures |ALPHABET| == 40 && ChDec(d) == ALPHABET[d] && ChEnc(ALPHABET[d]) == d
    ensures 'a' <= c <= 'z' ==> ChEnc(c) == (c as int - 'a' as int) + 1
    ensures c !in ALPHABET && !('a' <= c <= 'z') ==> ChEnc(c) == 29
  {
    AlphabetLow(d);
    AlphabetHas(c);
  }

  lemma AlphabetLow(d: nat)
    requires d < 40
    ensures ChDec(d) == ALPHABET[d] && ChEnc(ALPHABET[d]) == d
  {
    hide ChEnc;
    Spelled(d);
    DecEnc(d);
  }

  lemma Spelled(d: nat)
    requires d < 40
    ensures ChDec(d) == ALPHABET[d]
  {
  }

  lemma AlphabetHas(c: char)
    ensures Letter(c) || Figure(c) || c in {' ', '$', '.', '_'} ==> c in ALPHABET
  {
    var i := ChEnc(c);
    EncDec(c);
    AlphabetLow(i);
    assert Letter(c) || Figure(c) || c in {' ', '$', '.', '_'} ==> ALPHABET[i] == c;
  }

  lemma EncDec(c: char)
    ensures ChEnc(c) < 40 && ChDec(ChEnc(c)) == Shown(c)
    ensures ChEnc(c) == 0 <==> c == ' '
    ensures Shown(c) == ' ' <==> c == ' '
  {
  }

  lemma DecEnc(d: nat)
    requires d < 40
    ensures ChEnc(ChDec(d)) == d
    ensures ChDec(d) == ' ' <==> d == 0
  {
  }

  // ---------------------------------------------------------------- numbers in base 40

  function Pow40(n: nat): (r: nat)
    ensures r > 0
  {
    if n == 0 then 1 else 40 * Pow40(n - 1)
  }

  predicate Digits(ds: seq<nat>) { forall i :: 0 <= i < |ds| ==> ds[i] < 40 }

  function Num(ds: seq<nat>): nat {
    if ds == [] then 0 else 40 * Num(ds[..|ds| - 1]) + ds[|ds| - 1]
  }

  lemma {:induction false} NumBound(ds: seq<nat>)
    requires Digits(ds)
    ensures Num(ds) < Pow40(|ds|)
  {
    if ds != [] { NumBound(ds[..|ds| - 1]); }
  }

  lemma NumSnoc(ds: seq<nat>, d: nat)
    ensures Num(ds + [d]) == 40 * Num(ds) + d
  {
  }

  lemma {:induction false} NumCons(d: nat, ds: seq<nat>)
    ensures Num([d] + ds) == d * Pow40(|ds|) + Num(ds)
  {
    if ds == [] {
      assert [d] + ds == [d];
      assert Num([d]) == 40 * Num([d][..0]) + d;
    } else {
      var front, last := ds[..|ds| - 1], ds[|ds| - 1];
      NumCons(d, front);
      assert [d] + ds == ([d] + front) + [last];
      NumSnoc([d] + front, last);
      assert 40 * (d * Pow40(|front|)) == d * Pow40(|ds|);
    }
  }

  lemma {:induction false} Pow40Mono(a: nat, b: nat)
    requires a <= b
    ensures Pow40(a) <= Pow40(b)
  {
    if a < b { Pow40Mono(a, b - 1); }
  }

  lemma Pow40Values()
    ensures Pow40(11) == CUT as nat && Pow40(PLACES) == LIMIT
  {
  }

  /** The k lowest base-40 digits of n. */
  function DigitsOf(n: nat, k: nat): (ds: seq<nat>)
    ensures |ds| == k && Digits(ds)
  {
    if k == 0 then [] else DigitsOf(n / 40, k - 1) + [n % 40]
  }

  lemma {:induction false} NumDigits(n: nat, k: nat)
    requires n < Pow40(k)
    ensures Num(DigitsOf(n, k)) == n
  {
    if k > 0 {
      NumDigits(n / 40, k - 1);
      NumSnoc(DigitsOf(n / 40, k - 1), n % 40);
    }
  }

  // ---------------------------------------------------------------- names

  function Zeros(n: nat): (z: seq<nat>)
    ensures |z| == n && Digits(z)
  {
    seq(n, i => 0)
  }

  function Codes(s: string): (ds: seq<nat>)
    ensures |ds| == |s| && Digits(ds)
  {
    seq(|s|, i requires 0 <= i < |s| => (EncDec(s[i]); ChEnc(s[i])))
  }

  function Take(s: string): string { if |s| <= PLACES then s else s[..PLACES] }

  /** The twelve digits a name is packed as. */
  function Places(s: string): (ds: seq<nat>)
    ensures |ds| == PLACES && Digits(ds)
  {
    Codes(Take(s)) + Zeros(PLACES - |Take(s)|)
  }

  /** Digits with the zeros at the end dropped. */
  function Trim(ds: seq<nat>): (r: seq<nat>)
    ensures |r| <= |ds| && r == ds[..|r|] && (r != [] ==> r[|r| - 1] != 0)
    ensures forall i :: |r| <= i < |ds| ==> ds[i] == 0
  {
    if ds == [] || ds[|ds| - 1] != 0 then ds else Trim(ds[..|ds| - 1])
  }

  function Text(ds: seq<nat>): (s: string)
    requires Digits(ds)
    ensures |s| == |ds|
  {
    seq(|ds|, i requires 0 <= i < |ds| => ChDec(ds[i]))
  }

  /** What a name reads as once packed: its first twelve characters as shown, without the blanks at
      the end. */
  function Canon(s: string): string { TrimBlanks(ShownAll(Take(s))) }

  function TrimBlanks(s: string): string {
    if s == "" || s[|s| - 1] != ' ' then s else TrimBlanks(s[..|s| - 1])
  }

  /** The text a packed word stands for. */
  function Name(n: nat): string { Text(Trim(DigitsOf(n, PLACES))) }

  // ---------------------------------------------------------------- packing

  lemma CodesPrefix(s: string, i: nat)
    requires i < |s|
    ensures Codes(s[..i + 1]) == Codes(s[..i]) + [ChEnc(s[i])]
  {
  }

  lemma FitsWord(ds: seq<nat>)
    requires Digits(ds) && |ds| <= PLACES
    ensures Num(ds) < LIMIT
  {
    NumBound(ds);
    Pow40Mono(|ds|, PLACES);
    Pow40Values();
  }

  /** One more digit at the right fits the word as long as there are places left. */
  lemma OneMore(ds: seq<nat>, d: nat)
    requires Digits(ds) && |ds| < PLACES && d < 40
    ensures Num(ds + [d]) == 40 * Num(ds) + d < LIMIT && Digits(ds + [d])
  {
    NumSnoc(ds, d);
    FitsWord(ds + [d]);
  }

  /** One turn of the packing loop. */
  lemma PushChar(s: string, i: nat)
    requires i < |s| && i < PLACES
    ensures Num(Codes(s[..i + 1])) == 40 * Num(Codes(s[..i])) + ChEnc(s[i]) < LIMIT
  {
    hide Num;
    EncDec(s[i]);
    OneMore(Codes(s[..i]), ChEnc(s[i]));
    CodesPrefix(s, i);
  }

  /** One turn of the padding loop. */
  lemma PushZero(ds: seq<nat>, i: nat)
    requires Digits(ds) && |ds| + i < PLACES
    ensures Num(ds + Zeros(i + 1)) == 40 * Num(ds + Zeros(i)) < LIMIT
  {
    hide Num;
    OneMore(ds + Zeros(i), 0);
    assert ds + Zeros(i) + [0] == ds + Zeros(i + 1);
  }

  /** Pad with zeros, to get the first character to the top. */
  method Pad(start: u64, from: nat, ghost ds: seq<nat>) returns (sqz: u64)
    requires from == |ds| <= PLACES && Digits(ds) && start as nat == Num(ds)
    ensures sqz as nat == Num(ds + Zeros(PLACES - from)) < LIMIT
  {
    hide Num, Zeros;
    sqz := start;
    var ptr := from;
    assert ds + Zeros(0) == ds;
    FitsWord(ds);
    while ptr < PLACES
      invariant from <= ptr <= PLACES
      invariant sqz as nat == Num(ds + Zeros(ptr - from)) < LIMIT
    {
      PushZero(ds, ptr - from);
      sqz := sqz * 40;
      ptr := ptr + 1;
    }
  }

  /** Pack a name.  The word never overflows. */
  method Pack(s: string) returns (sqz: u64)
    ensures sqz as nat == Num(Places(s)) < LIMIT
  {
    hide Num, Codes, ChEnc;
    sqz := 0;
    var ptr := 0;
    ZeroNum(Codes(s[..0]));
    while ptr < |s| && ptr < PLACES
      invariant 0 <= ptr <= |s| && ptr <= PLACES
      invariant sqz as nat == Num(Codes(s[..ptr]))
    {
      PushChar(s, ptr);
      sqz := sqz * 40;
      sqz := sqz + ChEnc(s[ptr]) as u64;
      ptr := ptr + 1;
    }
    assert Take(s) == s[..ptr];
    sqz := Pad(sqz, ptr, Codes(s[..ptr]));
  }

  /** Cutting off after a nonzero digit, with zeros behind it, is trimming. */
  lemma {:induction false} TrimIs(ds: seq<nat>, k: nat)
    requires k <= |ds| && (k > 0 ==> ds[k - 1] != 0) && forall i :: k <= i < |ds| ==> ds[i] == 0
    ensures Trim(ds) == ds[..k]
  {
  }

  lemma {:induction false} ZeroNum(ds: seq<nat>)
    ensures Num(ds) == 0 <==> forall i :: 0 <= i < |ds| ==> ds[i] == 0
  {
    if ds != [] {
      ZeroNum(ds[..|ds| - 1]);
    }
  }

  /** Take the zeros off the end of a packed name.  The word may hold a thirteenth digit, top. */
  method Unpad(sqz: u64, ghost top: nat, ghost ds: seq<nat>) returns (head: u64, max: nat)
    requires top <= 1 && |ds| == PLACES && Digits(ds) && sqz as nat == Num([top] + ds)
    ensures max + |Trim(ds)| == PLACES && head as nat == Num([top] + Trim(ds))
  {
    hide Trim, Num;
    max, head := 0, sqz;
    ZeroNum([top] + ds);
    ZeroNum([0]);
    assert ds[..PLACES] == ds;
    if sqz == 0 {
      max := PLACES;
      assert ([top] + ds)[0] == top && forall i :: 0 <= i < PLACES ==> ([top] + ds)[i + 1] == ds[i];
      TrimIs(ds, 0);
      assert [top] + ds[..0] == [0];
    } else {
      while head % 40 == 0
        invariant max <= PLACES && head as nat == Num([top] + ds[..PLACES - max]) && head != 0
        invariant forall i :: PLACES - max <= i < PLACES ==> ds[i] == 0
        decreases head
      {
        UnpadStep(top, ds, PLACES - max);
        max := max + 1;
        head := head / 40;
      }
      UnpadLast(top, ds, PLACES - max);
      TrimIs(ds, PLACES - max);
    }
  }

  lemma UnpadLast(top: nat, ds: seq<nat>, k: nat)
    requires top <= 1 && Digits(ds) && k <= |ds|
    ensures Num([top] + ds[..k]) % 40 == if k == 0 then top else ds[k - 1]
    ensures k > 0 ==> Num([top] + ds[..k]) / 40 == Num([top] + ds[..k - 1])
  {
    hide Num;
    var w := [top] + ds[..k];
    LastDigit(w);
    assert k > 0 ==> w[..|w| - 1] == [top] + ds[..k - 1];
  }

  /** A word that is not zero and ends in a zero digit has another digit before it. */
  lemma UnpadStep(top: nat, ds: seq<nat>, k: nat)
    requires top <= 1 && Digits(ds) && k <= |ds|
    requires Num([top] + ds[..k]) % 40 == 0 && Num([top] + ds[..k]) != 0
    ensures k > 0 && ds[k - 1] == 0 && Num([top] + ds[..k]) / 40 == Num([top] + ds[..k - 1]) != 0
  {
    UnpadLast(top, ds, k);
    assert [top] + ds[..0] == [top];
    assert Num([top]) == 40 * Num([top][..0]) + top;
  }

  lemma WrapStep(a: nat, c: nat)
    ensures (a % WORD * 40 % WORD + c) % WORD == (a * 40 + c) % WORD
  {
    var q := a / WORD;
    assert a * 40 == (40 * q) * WORD + a % WORD * 40;
    WrapMore(a % WORD * 40, 40 * q);
    WrapMore(a % WORD * 40 % WORD + c, a * 40 / WORD);
    assert a * 40 + c == a * 40 / WORD * WORD + (a * 40 % WORD + c);
  }

  lemma {:induction false} WrapMore(x: nat, q: nat)
    ensures (x + q * WORD) % WORD == x % WORD
  {
    if q > 0 {
      WrapMore(x, q - 1);
      assert x + q * WORD == (x + (q - 1) * WORD) + WORD;
    }
  }

  /** Add the characters of s at the right of the digits ds, and max places in all, in 64 bits. */
  method FillWide(start: nat, s: string, max: nat, ghost ds: seq<nat>) returns (sqz: nat)
    requires start == Num(ds) % WORD
    ensures var m := if |s| < max then |s| else max;
            sqz == Num(ds + Codes(s[..m]) + Zeros(max - m)) % WORD
  {
    hide Num, Codes, ChEnc, Zeros;
    sqz := start;
    var ptr := 0;
    assert ds + Codes(s[..0]) == ds;
    while ptr < |s| && ptr < max
      invariant 0 <= ptr <= |s| && ptr <= max
      invariant sqz == Num(ds + Codes(s[..ptr])) % WORD
    {
      WideStep(ds, s, ptr);
      sqz := sqz * 40 % WORD;
      sqz := (sqz + ChEnc(s[ptr])) % WORD;
      ptr := ptr + 1;
    }
    ghost var m, body := ptr, ds + Codes(s[..ptr]);
    assert body + Zeros(0) == body;
    while ptr < max
      invariant m <= ptr <= max
      invariant sqz == Num(body + Zeros(ptr - m)) % WORD
    {
      WidePad(body, ptr - m);
      sqz := sqz * 40 % WORD;
      ptr := ptr + 1;
    }
  }

  lemma WideStep(ds: seq<nat>, s: string, i: nat)
    requires i < |s|
    ensures (Num(ds + Codes(s[..i])) % WORD * 40 % WORD + ChEnc(s[i])) % WORD == Num(ds + Codes(s[..i + 1])) % WORD
  {
    hide Num, ChEnc;
    CodesPrefix(s, i);
    assert ds + Codes(s[..i + 1]) == ds + Codes(s[..i]) + [ChEnc(s[i])];
    NumSnoc(ds + Codes(s[..i]), ChEnc(s[i]));
    WrapStep(Num(ds + Codes(s[..i])), ChEnc(s[i]));
  }

  lemma WidePad(ds: seq<nat>, i: nat)
    ensures Num(ds + Zeros(i)) % WORD * 40 % WORD == Num(ds + Zeros(i + 1)) % WORD
  {
    hide Num;
    assert ds + Zeros(i + 1) == ds + Zeros(i) + [0];
    NumSnoc(ds + Zeros(i), 0);
    WrapStep(Num(ds + Zeros(i)), 0);
  }

  /** Add a name to a packed one, after its last character that is not blank.  For every 64-bit word:
      packing the two texts together gives the same word exactly for the words that are names. */
  method Append(sqz: u64, s: string) returns (r: u64)
    ensures var both := Num(Places(Name(sqz as nat) + s));
            && r as nat == (if sqz as nat < LIMIT then both else (LIMIT + both) % WORD)
            && (r as nat == both <==> sqz as nat < LIMIT)
            && both < LIMIT
  {
    hide Num, Trim, DigitsOf, Places, Codes, Zeros, Pow40;
    ghost var n := sqz as nat;
    ghost var top, ds := if n < LIMIT then 0 else 1, DigitsOf(n, PLACES);
    WordDigits(n);
    NumCons(top, ds);
    Pow40Values();
    var head, max := Unpad(sqz, top, ds);
    var w := FillWide(head as nat, s, max, [top] + Trim(ds));
    r := w as u64;
    AppendPlaces(Trim(ds), s);
    ghost var m, both := if |s| < max then |s| else max, Places(Text(Trim(ds)) + s);
    assert [top] + Trim(ds) + Codes(s[..m]) + Zeros(max - m) == [top] + both;
    NumCons(top, both);
    FitsWord(both);
  }

  lemma LastDigit(ds: seq<nat>)
    requires Digits(ds) && ds != []
    ensures Num(ds) % 40 == ds[|ds| - 1] && Num(ds) / 40 == Num(ds[..|ds| - 1])
  {
    var front, last := ds[..|ds| - 1], ds[|ds| - 1];
    hide Num;
    assert ds == front + [last];
    NumSnoc(front, last);
    DivUnique(Num(ds), 40, Num(front), last);
  }

  lemma CodesText(ds: seq<nat>)
    requires Digits(ds)
    ensures Codes(Text(ds)) == ds
  {
  }

  lemma AppendPlaces(t: seq<nat>, s: string)
    requires Digits(t) && |t| <= PLACES
    ensures var max := PLACES - |t|;
            var m := if |s| < max then |s| else max;
            t + Codes(s[..m]) + Zeros(max - m) == Places(Text(t) + s)
  {
  }

  // ---------------------------------------------------------------- unpacking

  /** The text the decoder gives for any word; twelve places hold words below the limit only, and the
      limit itself reads as one blank. */
  function Decoded(n: nat): string { if n == LIMIT then " " else Name(n) }

  /** Taking the leading digit off. */
  lemma LeadingDigit(d: nat, rest: seq<nat>, q: nat)
    requires |rest| == PLACES - 1 && Digits(rest) && d < 40
    ensures var e := q * LIMIT + Num([d] + rest);
            && e / CUT as nat % 40 == d
            && e % CUT as nat * 40 == Num(rest + [0])
  {
    hide Num, Pow40;
    Pow40Values();
    NumCons(d, rest);
    NumBound(rest);
    NumSnoc(rest, 0);
    DivUnique(q * LIMIT + Num([d] + rest), CUT as nat, 40 * q + d, Num(rest));
  }

  lemma Multiple(x: int, c: int)
    requires c > 0
    ensures x >= 1 ==> x * c >= c
    ensures x <= -1 ==> x * c <= -c
  {
  }

  lemma DivUnique(e: nat, c: nat, k: nat, r: nat)
    requires c > 0 && e == k * c + r && r < c
    ensures e / c == k && e % c == r
  {
    assert e == e / c * c + e % c;
    assert (e / c - k) * c == r - e % c;
    Multiple(e / c - k, c);
  }

  /** Digits k on, shifted to the front. */
  function Shifted(ds: seq<nat>, k: nat): (r: seq<nat>)
    requires Digits(ds) && k <= |ds|
    ensures |r| == |ds| && Digits(r)
  {
    ds[k..] + Zeros(k)
  }

  lemma ShiftedZero(ds: seq<nat>, k: nat)
    requires Digits(ds) && k <= |ds|
    ensures Num(Shifted(ds, k)) == 0 <==> |Trim(ds)| <= k
  {
    ZeroNum(Shifted(ds, k));
    var r := Shifted(ds, k);
    if |Trim(ds)| <= k {
      assert forall i :: 0 <= i < |r| ==> r[i] == 0;
    } else {
      assert Trim(ds)[|Trim(ds)| - 1] != 0;
      assert r[|Trim(ds)| - 1 - k] != 0;
    }
  }

  /** Unpack into a buffer of len characters.  What is left of the buffer is filled with zeros; the
      length of that filling comes out right exactly when the text fits. */
  method Unpack(enc: u64, len: nat) returns (text: string, fill: nat)
    requires len < 0x1_0000_0000
    ensures var d := Decoded(enc as nat);
            text == if |d| <= len then d else d[..len]
    ensures |text| + fill == len <==> |Decoded(enc as nat)| <= len
  {
    hide Decoded, DigitsOf, Num, Shifted, ChDec;
    var e, l := enc, len;
    ghost var n, k := enc as nat, 0;
    DecodedLength(n);
    text := "";
    while e != 0 && l > 0
      invariant 0 <= l && k + l == len && k <= |Decoded(n)| && text == Decoded(n)[..k]
      invariant Left(n, k, e as nat)
      invariant e == 0 <==> k == |Decoded(n)|
      decreases PLACES - k
    {
      TakeDigit(n, k, e as nat);
      DigitShows(n, k);
      text := text + [ChDec((e / CUT % 40) as nat)];
      e := e % CUT * 40;
      l := l - 1;
      k := k + 1;
    }
    fill := if e != 0 then 0xffff_ffff else l;
  }

  lemma DecodedLength(n: nat)
    requires n < WORD
    ensures |Decoded(n)| <= PLACES && (n == 0 <==> |Decoded(n)| == 0)
  {
    var ds := DigitsOf(n, PLACES);
    WordDigits(n);
    ZeroNum(ds);
    if |Trim(ds)| == 0 {
      assert forall i :: 0 <= i < |ds| ==> ds[i] == 0;
    } else {
      assert ds[|Trim(ds)| - 1] != 0;
    }
  }

  /** A word is its twelve lowest digits, plus the limit if it is not below it. */
  lemma WordDigits(n: nat)
    requires n < WORD
    ensures n == (if n < LIMIT then 0 else 1) * LIMIT + Num(DigitsOf(n, PLACES))
  {
    Pow40Values();
    if n < LIMIT {
      NumDigits(n, PLACES);
    } else {
      DigitsWrap(n - LIMIT, PLACES);
      NumDigits(n - LIMIT, PLACES);
    }
  }

  lemma {:induction false} DigitsWrap(n: nat, k: nat)
    ensures DigitsOf(n + Pow40(k), k) == DigitsOf(n, k)
  {
    if k > 0 {
      var p := Pow40(k - 1);
      assert (n + 40 * p) / 40 == n / 40 + p && (n + 40 * p) % 40 == n % 40;
      DigitsWrap(n / 40, k - 1);
    }
  }

  /** What is left to decode after k rounds. */
  ghost predicate Left(n: nat, k: nat, e: nat) {
    k <= PLACES && if k == 0 then e == n else e == Num(Shifted(DigitsOf(n, PLACES), k))
  }

  /** One round of the decoding loop takes digit k off the front. */
  lemma TakeDigit(n: nat, k: nat, e: nat)
    requires n < WORD && k < PLACES && Left(n, k, e)
    ensures var ds := DigitsOf(n, PLACES);
            && e / CUT as nat % 40 == ds[k]
            && e % CUT as nat * 40 == Num(Shifted(ds, k + 1)) < LIMIT
  {
    hide Num, DigitsOf, Pow40;
    var ds := DigitsOf(n, PLACES);
    var r := Shifted(ds, k);
    var q := if k == 0 && n >= LIMIT then 1 else 0;
    WordDigits(n);
    assert k == 0 ==> r == ds;
    assert r == [ds[k]] + r[1..];
    LeadingDigit(ds[k], r[1..], q);
    assert r[1..] + [0] == Shifted(ds, k + 1);
    FitsWord(Shifted(ds, k + 1));
  }

  lemma LimitDigits()
    ensures Trim(DigitsOf(LIMIT, PLACES)) == [] && DigitsOf(LIMIT, PLACES)[0] == 0
  {
    hide Trim, DigitsOf, Num;
    WordDigits(LIMIT);
    ZeroNum(DigitsOf(LIMIT, PLACES));
    TrimIs(DigitsOf(LIMIT, PLACES), 0);
  }

  /** Digit k shows as character k of the text, and nothing is left behind the last. */
  lemma DigitShows(n: nat, k: nat)
    requires k < |Decoded(n)| <= PLACES
    ensures var ds := DigitsOf(n, PLACES);
            && ChDec(ds[k]) == Decoded(n)[k]
            && (Num(Shifted(ds, k + 1)) == 0 <==> k + 1 == |Decoded(n)|)
  {
    hide Trim, DigitsOf, Num;
    ShiftedZero(DigitsOf(n, PLACES), k + 1);
    LimitDigits();
  }

  // ---------------------------------------------------------------- round trips

  lemma {:induction false} TrimText(ds: seq<nat>)
    requires Digits(ds)
    ensures Text(Trim(ds)) == TrimBlanks(Text(ds))
  {
    if ds != [] {
      var front, last := ds[..|ds| - 1], ds[|ds| - 1];
      DecEnc(last);
      assert Text(ds)[..|ds| - 1] == Text(front);
      if last == 0 { TrimText(front); }
    }
  }

  lemma {:induction false} TrimPadding(ds: seq<nat>, n: nat)
    ensures Trim(ds + Zeros(n)) == Trim(ds)
  {
    if n == 0 {
      assert ds + Zeros(0) == ds;
    } else {
      assert (ds + Zeros(n))[..|ds| + n - 1] == ds + Zeros(n - 1);
      TrimPadding(ds, n - 1);
    }
  }

  lemma {:induction false} DigitsNum(ds: seq<nat>)
    requires Digits(ds)
    ensures DigitsOf(Num(ds), |ds|) == ds
  {
    if ds != [] {
      LastDigit(ds);
      DigitsNum(ds[..|ds| - 1]);
    }
  }

  function ShownAll(s: string): string { seq(|s|, i requires 0 <= i < |s| => Shown(s[i])) }

  lemma TextCodes(s: string)
    ensures Text(Codes(s)) == ShownAll(s)
  {
  }

  /** Unpacking a packed name gives its canonical form. */
  lemma PackThenRead(s: string)
    ensures Decoded(Num(Places(s))) == Canon(s)
  {
    hide Num, Codes, Text, Trim, DigitsOf, TrimBlanks, ShownAll;
    FitsWord(Places(s));
    DigitsNum(Places(s));
    var cs := Codes(Take(s));
    TrimPadding(cs, PLACES - |cs|);
    TrimText(cs);
    TextCodes(Take(s));
  }

  /** Packing an unpacked word gives the word exactly below the limit. */
  lemma ReadThenPack(n: nat)
    ensures Num(Places(Decoded(n))) == n <==> n < LIMIT
  {
    hide Num, Trim, DigitsOf, Codes, Text;
    FitsWord(Places(Decoded(n)));
    if n < LIMIT {
      var ds := DigitsOf(n, PLACES);
      Pow40Values();
      NumDigits(n, PLACES);
      CodesText(Trim(ds));
      assert Take(Text(Trim(ds))) == Text(Trim(ds));
      assert Trim(ds) + Zeros(PLACES - |Trim(ds)|) == ds;
    }
  }
}
