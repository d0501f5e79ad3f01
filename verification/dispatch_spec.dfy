/** Value-level description of the message layer of `src/dispatch.c`: the
    format specifiers and their widths, the little-endian element encoding,
    the descriptor grammar `name[:len][,tag]*` as the hand-written scanner
    reads it, the octets each publisher pushes into a frame, the decoding
    done by `DIS_process`, the element extraction of `DIS_getElements`,
    and the subscription table. The stateful code in dispatch.dfy is proved
    against these functions. */
module DispatchSpec {
  import opened Config
  import opened FrameSpec

  // ---------------------------------------------------------------------
  // Format specifiers
  // ---------------------------------------------------------------------

  /** A format specifier as it travels in a nibble. */
  type Tag = t: int | 0 <= t < 16

  const NONE: Tag := 0
  const STRING: Tag := 1
  const U8: Tag := 2
  const S8: Tag := 3
  const U16: Tag := 4
  const S16: Tag := 5
  const U32: Tag := 6
  const S32: Tag := 7

  /** The specifiers for which the publisher sends array data. */
  predicate IsNumeric(t: Tag) {
    U8 <= t <= S32
  }

  predicate IsSigned(t: Tag) {
    t == S8 || t == S16 || t == S32
  }

  /** Octets per element of one element of type `t` in the array data. */
  function ElementWidth(t: Tag): nat
    requires IsNumeric(t)
  {
    if t == U8 || t == S8 then 1 else if t == U16 || t == S16 then 2 else 4
  }

  /** The width `DIS_process` adds into `length8bit` per element: strings
      count one octet per element, unknown specifiers nothing. */
  function DecodeWidth(t: Tag): (w: nat)
    ensures IsNumeric(t) ==> w == ElementWidth(t)
    ensures t == STRING ==> w == 1
    ensures !IsNumeric(t) && t != STRING ==> w == 0
  {
    if t == STRING || t == U8 || t == S8 then 1
    else if t == U16 || t == S16 then 2
    else if t == U32 || t == S32 then 4
    else 0
  }

  /** The width `getCurrentRxPointerIndex` steps over per element: an
      absent specifier counts one octet, a string and every unknown
      specifier four. */
  function OffsetWidth(t: Tag): (w: nat)
    ensures IsNumeric(t) ==> w == ElementWidth(t)
    ensures t == NONE ==> w == 1
    ensures !IsNumeric(t) && t != NONE ==> w == 4
  {
    if t == NONE || t == U8 || t == S8 then 1
    else if t == U16 || t == S16 then 2
    else 4
  }

  // ---------------------------------------------------------------------
  // Little-endian elements
  // ---------------------------------------------------------------------

  function Pow256(n: nat): (r: nat)
    ensures r > 0
  {
    if n == 0 then 1 else 256 * Pow256(n - 1)
  }

  /** The octets `(v & (0xff << 8k)) >> 8k` for `k < w`, low octet first.
      Euclidean division makes these the two's complement octets of a
      negative `v`, as the C masks do. */
  function LittleEndian(v: int, w: nat): (r: seq<Byte>)
    ensures |r| == w
    decreases w
  {
    if w == 0 then [] else [v % 256] + LittleEndian(v / 256, w - 1)
  }

  /** The unsigned value of octets given low octet first. */
  function FromLittleEndian(bs: seq<Byte>): (r: nat)
    ensures r < Pow256(|bs|)
  {
    if bs == [] then 0 else bs[0] + 256 * FromLittleEndian(bs[1..])
  }

  /** Reading an unsigned value of `w` octets as a two's complement one. */
  function ToSigned(x: int, w: nat): (r: int)
    ensures 0 <= x < Pow256(w) ==> 0 <= 2 * r + Pow256(w) && 2 * r < Pow256(w) && (r == x || r == x - Pow256(w))
  {
    if 2 * x >= Pow256(w) then x - Pow256(w) else x
  }

  /** The value of type `t` held in the octets `bs`. */
  function ElementValue(t: Tag, bs: seq<Byte>): int {
    if IsSigned(t) then ToSigned(FromLittleEndian(bs), |bs|) else FromLittleEndian(bs)
  }

  /** The values a C array of element type `t` can hold. */
  predicate InRange(t: Tag, v: int)
    requires IsNumeric(t)
  {
    var p: int := Pow256(ElementWidth(t));
    if IsSigned(t) then -p <= 2 * v < p else 0 <= v < p
  }

  /** `v = m * q + r` with `0 <= r < m` pins down both quotient and
      remainder. */
  lemma DivModUnique(v: int, m: int, q: int, r: int)
    requires m > 0 && 0 <= r < m && v == m * q + r
    ensures v / m == q && v % m == r
  {
    var q', r' := v / m, v % m;
    assert v == m * q' + r';
    if q' < q {
      assert m * q - m * q' == m * (q - q');
      MulAtLeast(m, q - q');
    } else if q' > q {
      assert m * q' - m * q == m * (q' - q);
      MulAtLeast(m, q' - q);
    }
  }

  lemma MulAtLeast(m: int, k: int)
    requires m > 0 && k >= 1
    ensures m * k >= m
  {
  }

  lemma {:induction false} LittleEndianRoundTrip(v: int, w: nat)
    ensures FromLittleEndian(LittleEndian(v, w)) == v % Pow256(w)
    decreases w
  {
    if w == 0 {
      DivModUnique(v, 1, v, 0);
    } else {
      LittleEndianRoundTrip(v / 256, w - 1);
      assert LittleEndian(v, w)[1..] == LittleEndian(v / 256, w - 1);
      ModSplit(v, Pow256(w - 1));
    }
  }

  /** The remainder modulo `256 * p` is the low octet plus 256 times the
      remainder of the rest modulo `p`. */
  lemma ModSplit(v: int, p: int)
    requires p > 0
    ensures v % (256 * p) == v % 256 + 256 * ((v / 256) % p)
  {
    var q := v / 256;
    var hi := q % p;
    assert q == p * (q / p) + hi;
    assert v == 256 * q + v % 256;
    assert v == (256 * p) * (q / p) + (256 * hi + v % 256);
    assert 256 * hi + v % 256 < 256 * p;
    DivModUnique(v, 256 * p, q / p, 256 * hi + v % 256);
  }

  /** Every value of a C array of type `t` survives the encoding of the
      publisher followed by the decoding of `DIS_getElements`. */
  lemma ElementRoundTrip(t: Tag, v: int)
    requires IsNumeric(t) && InRange(t, v)
    ensures ElementValue(t, LittleEndian(v, ElementWidth(t))) == v
  {
    var w := ElementWidth(t);
    var p := Pow256(w);
    LittleEndianRoundTrip(v, w);
    if v >= 0 {
      DivModUnique(v, p, 0, v);
    } else {
      DivModUnique(v, p, -1, v + p);
    }
  }

  /** Nested division by 256 and by `m` is division by their product. */
  lemma DivDiv256(v: int, m: int)
    requires m > 0
    ensures (v / 256) / m == v / (256 * m)
  {
    var q := v / 256;
    var r2 := q % m;
    assert q == m * (q / m) + r2;
    assert v == 256 * q + v % 256;
    assert v == (256 * m) * (q / m) + (256 * r2 + v % 256);
    DivModUnique(v, 256 * m, q / m, 256 * r2 + v % 256);
  }

  /** The four masks and shifts the publishers apply to a 32-bit value
      give the octets of `LittleEndian`; the 16-bit and 8-bit cases are
      the first two and the first one of them. */
  lemma LittleEndianOctets(v: int)
    ensures LittleEndian(v, 1) == [v % 256]
    ensures LittleEndian(v, 2) == [v % 256, (v / 256) % 256]
    ensures LittleEndian(v, 4) == [v % 256, (v / 256) % 256, (v / 0x1_0000) % 256, (v / 0x100_0000) % 256]
  {
    DivDiv256(v, 256);
    DivDiv256(v / 256, 256);
    DivDiv256(v, 0x1_0000);
  }

  /** The value `DIS_getElements` assembles with `|=` and shifts from one,
      two or four octets is their little-endian value. */
  lemma FromLittleEndianOctets(bs: seq<Byte>)
    ensures |bs| == 1 ==> FromLittleEndian(bs) == bs[0]
    ensures |bs| == 2 ==> FromLittleEndian(bs) == bs[0] as int + 0x100 * (bs[1] as int)
    ensures |bs| == 4 ==> FromLittleEndian(bs) == bs[0] as int + 0x100 * (bs[1] as int) +
                                                  0x1_0000 * (bs[2] as int) + 0x100_0000 * (bs[3] as int)
  {
    if |bs| == 4 {
      assert bs[1..][1..][1..][1..] == [];
    } else if |bs| == 2 {
      assert bs[1..][1..] == [];
    } else if |bs| == 1 {
      assert bs[1..] == [];
    }
  }

  /** Reducing an accumulator modulo `m` before adding to it does not
      change the reduced sum: the 16-bit offset of
      `getCurrentRxPointerIndex` is the full sum modulo 0x10000. */
  lemma ModAddMod(a: int, b: int, m: int)
    requires m > 0
    ensures (a % m + b) % m == (a + b) % m
  {
    var q1, r1 := a / m, a % m;
    var q2, r2 := (r1 + b) / m, (r1 + b) % m;
    assert r1 + b == m * q2 + r2;
    assert a + b == m * (q1 + q2) + r2;
    DivModUnique(a + b, m, q1 + q2, r2);
  }

  /** A length truncated to `m` values is no longer than the original. */
  lemma TruncateAtMost(n: nat, m: nat)
    requires m > 0
    ensures n % m <= n
  {
  }

  /** The two octets of a 16-bit value, as the publishers mask them. */
  lemma Octets16(n: nat)
    requires n < 0x1_0000
    ensures n % 256 < 256 && n / 256 < 256
    ensures n == n % 256 + 256 * (n / 256)
  {
  }

  // ---------------------------------------------------------------------
  // C strings
  // ---------------------------------------------------------------------

  /** The characters of a NUL-terminated C string, without the terminator:
      every one is a non-zero octet. */
  predicate IsCString(s: seq<char>) {
    forall i :: 0 <= i < |s| ==> 0 < s[i] as int < 256
  }

  /** `s[i]` as the C code reads it: the terminator past the last
      character. */
  function At(s: seq<char>, i: nat): char {
    if i < |s| then s[i] else 0 as char
  }

  /** The characters of a C string as the octets `FRM_push` receives. */
  function Octets(s: seq<char>): (r: seq<Byte>)
    requires IsCString(s)
    ensures |r| == |s| && forall i :: 0 <= i < |s| ==> r[i] != 0
  {
    seq(|s|, i requires 0 <= i < |s| => s[i] as int)
  }

  /** The octets of a prefix one character longer. */
  lemma OctetsSnoc(s: seq<char>, i: nat)
    requires IsCString(s) && i < |s|
    ensures Octets(s[..i + 1]) == Octets(s[..i]) + [s[i] as int]
  {
  }

  /** The octets of a received topic as characters. */
  function Chars(bs: seq<Byte>): (r: seq<char>)
    ensures |r| == |bs|
  {
    seq(|bs|, i requires 0 <= i < |bs| => bs[i] as char)
  }

  lemma CharsOctets(s: seq<char>)
    requires IsCString(s)
    ensures Chars(Octets(s)) == s
  {
  }

  /** The first position at or after `from` holding one of `stops`, or the
      end of `s`: where a scanning loop of the C code stops. */
  function ScanTo(s: seq<char>, from: nat, stops: set<char>): (k: nat)
    requires from <= |s|
    ensures from <= k <= |s|
    ensures k < |s| ==> s[k] in stops
    ensures forall j :: from <= j < k ==> s[j] !in stops
    decreases |s| - from
  {
    if from == |s| || s[from] in stops then from else ScanTo(s, from + 1, stops)
  }

  /** The loops `while(topic[strIndex] == ' ') strIndex++;`. */
  function SkipSpaces(s: seq<char>, from: nat): (k: nat)
    ensures from <= k && At(s, k) != ' '
    ensures from <= |s| ==> k <= |s|
    ensures forall j :: from <= j < k ==> At(s, j) == ' '
    decreases |s| - from
  {
    if from < |s| && s[from] == ' ' then SkipSpaces(s, from + 1) else from
  }

  /** The number of commas in a descriptor, counted by the first loop of
      `DIS_publish`. */
  function CommaCount(s: seq<char>): nat {
    if s == [] then 0 else CommaCount(s[..|s| - 1]) + (if s[|s| - 1] == ',' then 1 else 0)
  }

  /** There are at most as many commas as characters, and none exactly
      when no character is a comma. */
  lemma {:induction false} CommaCountBounds(s: seq<char>)
    ensures CommaCount(s) <= |s|
    ensures CommaCount(s) == 0 <==> forall k :: 0 <= k < |s| ==> s[k] != ','
  {
    if s != [] {
      CommaCountBounds(s[..|s| - 1]);
    }
  }

  // ---------------------------------------------------------------------
  // atol
  // ---------------------------------------------------------------------

  predicate IsSpace(c: char) {
    c == ' ' || '\t' <= c <= '\r'
  }

  predicate IsDigit(c: char) {
    '0' <= c <= '9'
  }

  function DigitValue(c: char): nat
    requires IsDigit(c)
  {
    c as int - '0' as int
  }

  /** The value of a run of decimal digits. */
  function DecimalValue(d: seq<char>): nat
    requires forall i :: 0 <= i < |d| ==> IsDigit(d[i])
  {
    if d == [] then 0 else 10 * DecimalValue(d[..|d| - 1]) + DigitValue(d[|d| - 1])
  }

  /** Where the run of digits starting at `from` ends. */
  function DigitsEnd(s: seq<char>, from: nat): (k: nat)
    requires from <= |s|
    ensures from <= k <= |s|
    ensures forall i :: from <= i < k ==> IsDigit(s[i])
    ensures k < |s| ==> !IsDigit(s[k])
    decreases |s| - from
  {
    if from < |s| && IsDigit(s[from]) then DigitsEnd(s, from + 1) else from
  }

  /** Where the leading white space of `s` ends. */
  function WhiteEnd(s: seq<char>, from: nat): (k: nat)
    requires from <= |s|
    ensures from <= k <= |s|
    ensures k < |s| ==> !IsSpace(s[k])
    decreases |s| - from
  {
    if from < |s| && IsSpace(s[from]) then WhiteEnd(s, from + 1) else from
  }

  /** The C library's `atol` on the characters of a short field: white
      space, an optional sign, then the longest run of digits; anything
      after that run is ignored, and no digits read as 0. */
  function Atol(s: seq<char>): int {
    var k := WhiteEnd(s, 0);
    var signed := k < |s| && (s[k] == '-' || s[k] == '+');
    var d := if signed then k + 1 else k;
    var v: int := DecimalValue(s[d..DigitsEnd(s, d)]);
    if k < |s| && s[k] == '-' then -v else v
  }

  /** Only a minus sign after the leading white space gives a negative
      value. */
  lemma AtolSign(s: seq<char>)
    ensures Atol(s) < 0 ==> WhiteEnd(s, 0) < |s| && s[WhiteEnd(s, 0)] == '-'
  {
  }

  /** The usual decimal spelling of `n`, which is how a descriptor writes
      its length. */
  function Decimal(n: nat): (r: seq<char>)
    ensures |r| > 0 && forall i :: 0 <= i < |r| ==> IsDigit(r[i])
  {
    if n < 10 then [('0' as int + n) as char]
    else Decimal(n / 10) + [('0' as int + n % 10) as char]
  }

  lemma {:induction false} DecimalValueOfDecimal(n: nat)
    ensures DecimalValue(Decimal(n)) == n
  {
    if n >= 10 {
      DecimalValueOfDecimal(n / 10);
      var r := Decimal(n);
      assert r[..|r| - 1] == Decimal(n / 10);
    }
  }

  /** `atol` reads back a decimal spelling, also when it is followed by
      something that is not a digit. */
  lemma AtolOfDecimal(n: nat, rest: seq<char>)
    requires rest == [] || !IsDigit(rest[0])
    ensures Atol(Decimal(n) + rest) == n
  {
    var s := Decimal(n) + rest;
    var d := Decimal(n);
    assert !IsSpace(s[0]) && s[0] != '-' && s[0] != '+';
    assert WhiteEnd(s, 0) == 0;
    DigitsEndIs(s, 0, |d|);
    assert s[0..|d|] == d;
    DecimalValueOfDecimal(n);
  }

  lemma {:induction false} DigitsEndIs(s: seq<char>, from: nat, k: nat)
    requires from <= k <= |s|
    requires forall i :: from <= i < k ==> IsDigit(s[i])
    requires k < |s| ==> !IsDigit(s[k])
    ensures DigitsEnd(s, from) == k
    decreases k - from
  {
    if from < k {
      DigitsEndIs(s, from + 1, k);
    }
  }

  // ---------------------------------------------------------------------
  // The descriptor of DIS_publish: name[:len][,tag]*
  // ---------------------------------------------------------------------

  /** The type tokens of the descriptor grammar and the specifiers they
      name; anything else names none. */
  function TokenTag(tok: seq<char>): Tag {
    if tok == "u8" then U8
    else if tok == "s8" then S8
    else if tok == "u16" then U16
    else if tok == "s16" then S16
    else if tok == "u32" then U32
    else if tok == "s32" then S32
    else if tok == "st" then STRING
    else NONE
  }

  /** One `,tag` item, read from `i`, the position after the comma and its
      spaces: the specifier and the position after the item. `u` or `s`
      followed by `1` or `3` skips one more character without looking at
      it, and `st` skips one more as well, so a following comma is passed
      over. An unknown item gives no specifier. */
  function ParseTag(s: seq<char>, i: nat): (r: (Tag, nat))
    ensures i < r.1 <= i + 3
  {
    var c, d := At(s, i), At(s, i + 1);
    if c == 'u' then
      if d == '8' then (U8, i + 2)
      else if d == '1' then (U16, i + 3)
      else if d == '3' then (U32, i + 3)
      else (NONE, i + 2)
    else if c == 's' then
      if d == '8' then (S8, i + 2)
      else if d == '1' then (S16, i + 3)
      else if d == '3' then (S32, i + 3)
      else if d == 't' then (STRING, i + 3)
      else (NONE, i + 2)
    else (NONE, i + 1)
  }

  /** A type token found at `i` is read as the specifier it names; the
      read moves past the token, and one character further for `st`. */
  lemma ParseToken(s: seq<char>, i: nat, tok: seq<char>)
    requires TokenTag(tok) != NONE && i + |tok| <= |s| && s[i..i + |tok|] == tok
    ensures ParseTag(s, i) == (TokenTag(tok), if tok == "st" then i + 3 else i + |tok|)
  {
    assert s[i] == tok[0] && s[i + 1] == tok[1];
  }

  /** The specifier loop of `DIS_publish` from position `i` with `n`
      specifiers already read: it goes on while there is input, room for
      another specifier and a comma at the current position. */
  function ParseTags(s: seq<char>, i: nat, n: nat): (r: seq<Tag>)
    requires n <= MAX_NUM_OF_FORMAT_SPECIFIERS
    ensures |r| <= MAX_NUM_OF_FORMAT_SPECIFIERS - n
    decreases |s| - i
  {
    if i < |s| && n < MAX_NUM_OF_FORMAT_SPECIFIERS && s[i] == ',' then
      var (t, j) := ParseTag(s, SkipSpaces(s, i + 1));
      [t] + ParseTags(s, j, n + 1)
    else []
  }

  /** The specifier table after the loop: the ones read, then `eNONE`. */
  function Pad(tags: seq<Tag>): (r: seq<Tag>)
    requires |tags| <= MAX_NUM_OF_FORMAT_SPECIFIERS
    ensures |r| == MAX_NUM_OF_FORMAT_SPECIFIERS
    ensures r[..|tags|] == tags
    ensures forall i :: |tags| <= i < |r| ==> r[i] == NONE
  {
    tags + seq(MAX_NUM_OF_FORMAT_SPECIFIERS - |tags|, _ => NONE)
  }

  /** Where the name of a descriptor ends: its first `,` or `:`. */
  function NameEnd(topic: seq<char>): nat {
    ScanTo(topic, 0, {',', ':'})
  }

  /** A `:` follows the name. */
  predicate HasLengthField(topic: seq<char>) {
    NameEnd(topic) < |topic| && topic[NameEnd(topic)] == ':'
  }

  /** The length field runs from after the colon and its spaces up to the
      next comma or the end. */
  function LengthFieldStart(topic: seq<char>): (k: nat)
    requires HasLengthField(topic)
    ensures k <= |topic|
  {
    SkipSpaces(topic, NameEnd(topic) + 1)
  }

  function LengthFieldEnd(topic: seq<char>): (k: nat)
    requires HasLengthField(topic)
    ensures LengthFieldStart(topic) <= k <= |topic|
  {
    ScanTo(topic, LengthFieldStart(topic), {','})
  }

  function LengthField(topic: seq<char>): seq<char>
    requires HasLengthField(topic)
  {
    topic[LengthFieldStart(topic)..LengthFieldEnd(topic)]
  }

  /** The shared array length as `DIS_publish` computes it: `atol` of the
      field, kept in an 8-bit variable, and raised to 1 when that is 0
      (also when there is no field). */
  function PublishLength(topic: seq<char>): (r: Byte)
    ensures 1 <= r
    ensures HasLengthField(topic) && Atol(LengthField(topic)) % 256 != 0 ==> r == Atol(LengthField(topic)) % 256
    ensures !HasLengthField(topic) ==> r == 1
  {
    var raw := if HasLengthField(topic) then Atol(LengthField(topic)) % 256 else 0;
    if raw < 1 then 1 else raw
  }

  /** Where the specifier loop starts. */
  function TagsStart(topic: seq<char>): nat {
    if HasLengthField(topic) then LengthFieldEnd(topic) else NameEnd(topic)
  }

  /** The specifier table of `DIS_publish`. */
  function PublishTags(topic: seq<char>): (r: seq<Tag>)
    ensures |r| == MAX_NUM_OF_FORMAT_SPECIFIERS
  {
    Pad(ParseTags(topic, TagsStart(topic), 0))
  }

  // ---------------------------------------------------------------------
  // Nibble packing of the specifiers
  // ---------------------------------------------------------------------

  /** Specifier `i` in the low nibble of octet `i / 2` when `i` is even and
      in its high nibble when `i` is odd; a last odd-placed nibble is 0. */
  function PackTags(tags: seq<Tag>): (r: seq<Byte>)
    ensures |r| == (|tags| + 1) / 2
  {
    seq((|tags| + 1) / 2, k requires 0 <= k < (|tags| + 1) / 2 =>
      tags[2 * k] as int + 16 * (if 2 * k + 1 < |tags| then tags[2 * k + 1] as int else 0))
  }

  /** The `n` specifiers `DIS_process` reads from the octets `bs`. */
  function UnpackTags(bs: seq<Byte>, n: nat): (r: seq<Tag>)
    requires (n + 1) / 2 <= |bs|
    ensures |r| == n
  {
    seq(n, i requires 0 <= i < n => if i % 2 == 0 then bs[i / 2] % 16 else bs[i / 2] / 16)
  }

  /** Unpacking inverts packing, and reads exactly the packed octets. */
  lemma PackUnpack(tags: seq<Tag>, rest: seq<Byte>)
    ensures UnpackTags(PackTags(tags) + rest, |tags|) == tags
  {
    var p := PackTags(tags);
    var u := UnpackTags(p + rest, |tags|);
    forall i | 0 <= i < |tags| ensures u[i] == tags[i] {
      var k := i / 2;
      var hi: int := if 2 * k + 1 < |tags| then tags[2 * k + 1] else 0;
      assert (p + rest)[k] == tags[2 * k] as int + 16 * hi;
      if i % 2 == 0 {
        DivModUnique(tags[2 * k] + 16 * hi, 16, hi, tags[2 * k]);
      } else {
        DivModUnique(tags[2 * k] + 16 * hi, 16, hi, tags[2 * k]);
      }
    }
  }

  // ---------------------------------------------------------------------
  // What the publishers push
  // ---------------------------------------------------------------------

  /** One variadic argument of `DIS_publish`: a string or a typed array. */
  datatype Arg = Text(chars: seq<char>) | Values(values: seq<int>)

  /** The values `vs`, each as `w` little-endian octets, in order. */
  function Encode(vs: seq<int>, w: nat): (r: seq<Byte>)
    ensures |r| == |vs| * w
  {
    if vs == [] then [] else Encode(vs[..|vs| - 1], w) + LittleEndian(vs[|vs| - 1], w)
  }

  /** The encoding of a prefix one value longer. */
  lemma EncodeSnoc(vs: seq<int>, j: nat, w: nat)
    requires j < |vs|
    ensures Encode(vs[..j + 1], w) == Encode(vs[..j], w) + LittleEndian(vs[j], w)
  {
    assert vs[..j + 1][..j] == vs[..j];
  }

  /** The arguments match the specifiers: every numeric specifier takes the
      next argument, which is an array of at least `n` values. */
  predicate ArgsFit(tags: seq<Tag>, n: nat, args: seq<Arg>)
    decreases |tags|
  {
    if tags == [] then true
    else if IsNumeric(tags[0]) then
      |args| > 0 && args[0].Values? && |args[0].values| >= n && ArgsFit(tags[1..], n, args[1..])
    else ArgsFit(tags[1..], n, args)
  }

  /** The array data of the numeric branch: each numeric specifier sends
      the first `n` values of its argument; any other specifier sends
      nothing and takes no argument. */
  function DataBytes(tags: seq<Tag>, n: nat, args: seq<Arg>): seq<Byte>
    requires ArgsFit(tags, n, args)
    decreases |tags|
  {
    if tags == [] then []
    else if IsNumeric(tags[0]) then
      Encode(args[0].values[..n], ElementWidth(tags[0])) + DataBytes(tags[1..], n, args[1..])
    else DataBytes(tags[1..], n, args)
  }

  /** What a call of `DIS_publish` needs to have defined behaviour: C
      strings, a 16-bit string length, at most as many commas as the
      specifier table has entries, a length field that fits the 8-octet
      buffer with its terminator, and arguments of the declared kinds. */
  predicate PublishDefined(topic: seq<char>, args: seq<Arg>) {
    IsCString(topic) && |topic| < 0x1_0000 &&
    CommaCount(topic) <= MAX_NUM_OF_FORMAT_SPECIFIERS &&
    if CommaCount(topic) == 0 then
      |args| > 0 && args[0].Text? && IsCString(args[0].chars)
    else
      (HasLengthField(topic) ==> |LengthField(topic)| <= 7) &&
      ArgsFit(PublishTags(topic)[..CommaCount(topic)], PublishLength(topic), args)
  }

  /** The octets `DIS_publish` pushes between `FRM_init` and `FRM_finish`:
      the name and a 0; then either the string form (dimension 1, the
      8-bit string length, `eSTRING`, the characters) when the descriptor
      has no comma, or the dimension count, the 8-bit shared length, the
      packed specifiers and the array data. The high length octet is 0 in
      both forms. */
  function PublishPayload(topic: seq<char>, args: seq<Arg>): seq<Byte>
    requires PublishDefined(topic, args)
  {
    var name := Octets(topic[..NameEnd(topic)]);
    var dims := CommaCount(topic);
    if dims == 0 then
      var str := args[0].chars;
      var n := |str| % 256;
      name + [0, 1, n, 0, STRING] + Octets(str[..n])
    else
      var n := PublishLength(topic);
      var tags := PublishTags(topic)[..dims];
      name + [0, dims, n, 0] + PackTags(tags) + DataBytes(tags, n, args)
  }

  /** The octets `DIS_publish_str` pushes: the whole topic (colons and
      commas included) and a 0, dimension 1, the 16-bit string length low
      octet first, `eSTRING`, and the characters. */
  function PublishStrPayload(topic: seq<char>, str: seq<char>): seq<Byte>
    requires IsCString(topic) && IsCString(str)
  {
    var n := |str| % 0x1_0000;
    Octets(topic) + [0, 1, n % 256, n / 256, STRING] + Octets(str[..n])
  }

  /** Where the name ends for `parseTopicString`: its first `:`. */
  function TopicNameEnd(topic: seq<char>): nat {
    ScanTo(topic, 0, {':'})
  }

  /** What `parseTopicString` needs: a C string of 16-bit length whose
      length field fits the 8-octet buffer with its terminator. */
  predicate TopicDefined(topic: seq<char>) {
    IsCString(topic) && |topic| < 0x1_0000 &&
    (TopicNameEnd(topic) < |topic| ==> |topic| - TopicNameEnd(topic) - 1 <= 7)
  }

  /** The length `parseTopicString` returns: `atol` of everything after
      the colon as a 16-bit value, with no lower bound, or 1 without a
      colon. */
  function TopicLength(topic: seq<char>): (r: nat)
    ensures r < 0x1_0000
    ensures TopicNameEnd(topic) == |topic| ==> r == 1
  {
    var k := TopicNameEnd(topic);
    if k < |topic| then Atol(topic[k + 1..]) % 0x1_0000 else 1
  }

  /** The octets `parseTopicString` pushes: the name and a 0, the given
      dimension count, and the length low octet first. */
  function TopicHeader(topic: seq<char>, dims: Byte): seq<Byte>
    requires IsCString(topic)
  {
    var n := TopicLength(topic);
    Octets(topic[..TopicNameEnd(topic)]) + [0, dims, n % 256, n / 256]
  }

  /** The octets one of the one-array helpers `DIS_publish_u8` ...
      `DIS_publish_s32` pushes: the header with one dimension, the
      specifier, and the first `TopicLength` values. */
  function ArrayPayload(topic: seq<char>, t: Tag, data: seq<int>): seq<Byte>
    requires TopicDefined(topic) && IsNumeric(t) && |data| >= TopicLength(topic)
  {
    TopicHeader(topic, 1) + [t] + Encode(data[..TopicLength(topic)], ElementWidth(t))
  }

  /** The octets one of the two-array helpers pushes: the header with two
      dimensions, one octet carrying the specifier in both nibbles, then
      the first array and then the second. */
  function Array2Payload(topic: seq<char>, t: Tag, data0: seq<int>, data1: seq<int>): seq<Byte>
    requires TopicDefined(topic) && IsNumeric(t)
    requires |data0| >= TopicLength(topic) && |data1| >= TopicLength(topic)
  {
    var n := TopicLength(topic);
    TopicHeader(topic, 2) + [t + 16 * t] +
    Encode(data0[..n], ElementWidth(t)) + Encode(data1[..n], ElementWidth(t))
  }

  // ---------------------------------------------------------------------
  // Decoding in DIS_process
  // ---------------------------------------------------------------------

  /** The fields `DIS_process` stores in `rxMsg`, and the topic it keeps in
      its local buffer. */
  datatype Message = Message(topic: seq<char>, dims: nat, length: nat, tags: seq<Tag>,
                             length8bit: nat, payload: seq<Byte>)

  /** Where the received topic ends: the first 0. */
  function TopicEnd(data: seq<Byte>): nat {
    FirstIndexFrom(data, 0, 0)
  }

  /** The `length8bit` sum: `length` times the decode width of each
      specifier. */
  function Length8bit(tags: seq<Tag>, length: nat): nat {
    if tags == [] then 0
    else Length8bit(tags[..|tags| - 1], length) + length * DecodeWidth(tags[|tags| - 1])
  }

  /** The header in `DIS_process`'s local buffer can be read with defined
      behaviour: the topic's terminator lies inside the 16-octet topic
      buffer, and there are at most as many dimensions as the specifier
      table holds. The remaining bounds only keep the reads inside `data`;
      for the 96-octet local buffer they follow from the first. */
  predicate HeaderDecodable(data: seq<Byte>) {
    var t := TopicEnd(data);
    t < MAX_TOPIC_STR_LEN && t + 3 < |data| &&
    data[t + 1] % 16 <= MAX_NUM_OF_FORMAT_SPECIFIERS &&
    t + 4 + (data[t + 1] % 16 + 1) / 2 <= |data|
  }

  function DecodeTags(data: seq<Byte>): (r: seq<Tag>)
    requires HeaderDecodable(data)
    ensures |r| == data[TopicEnd(data) + 1] % 16
  {
    var t := TopicEnd(data);
    UnpackTags(data[t + 4..], data[t + 1] % 16)
  }

  function DecodeLength(data: seq<Byte>): nat
    requires HeaderDecodable(data)
  {
    var t := TopicEnd(data);
    data[t + 2] as int + 256 * (data[t + 3] as int)
  }

  /** Where the array data starts: after the packed specifiers. */
  function PayloadStart(data: seq<Byte>): nat
    requires HeaderDecodable(data)
  {
    var t := TopicEnd(data);
    t + 4 + (data[t + 1] % 16 + 1) / 2
  }

  /** The whole message can be read with defined behaviour: the header,
      then `length8bit` octets of data that fit the stored message's buffer
      and are read from inside `data`. */
  predicate Decodable(data: seq<Byte>) {
    HeaderDecodable(data) &&
    var l8 := Length8bit(DecodeTags(data), DecodeLength(data));
    l8 <= MAX_RECEIVE_MESSAGE_LEN && PayloadStart(data) + l8 <= |data|
  }

  /** What `DIS_process` reads from the octets of a received frame. */
  function Decode(data: seq<Byte>): (m: Message)
    requires Decodable(data)
    ensures |m.tags| == m.dims <= MAX_NUM_OF_FORMAT_SPECIFIERS
    ensures |m.payload| == m.length8bit <= MAX_RECEIVE_MESSAGE_LEN
    ensures |m.topic| < MAX_TOPIC_STR_LEN
  {
    var t := TopicEnd(data);
    var tags := DecodeTags(data);
    var length := DecodeLength(data);
    var l8 := Length8bit(tags, length);
    var start := PayloadStart(data);
    Message(Chars(data[..t]), data[t + 1] % 16, length, tags, l8, data[start..start + l8])
  }

  /** The 96 octets of `DIS_process`'s local buffer after the poll: the
      octets the poll wrote, then whatever the buffer held before
      (`stale`, which the code never initialises). */
  function LocalBuffer(written: seq<Byte>, stale: seq<Byte>): (d: seq<Byte>)
    requires |written| <= |stale| == MAX_RECEIVE_MESSAGE_LEN
    ensures |d| == MAX_RECEIVE_MESSAGE_LEN
    ensures d[..|written|] == written && d[|written|..] == stale[|written|..]
  {
    written + stale[|written|..]
  }

  /** What a call of `DIS_process` needs to have defined behaviour: the
      poll is defined, the octets it writes fit the 96-octet local buffer,
      and a returned message can be decoded from that buffer, where a
      header or data that reaches past the written octets reads the
      buffer's earlier contents. */
  predicate ProcessDefined(buf: seq<Byte>, index: nat, input: seq<Byte>, stale: seq<Byte>) {
    PullDefined(buf, index, input) && |stale| == MAX_RECEIVE_MESSAGE_LEN &&
    var r := Pull(buf, index, input);
    |r.written| <= MAX_RECEIVE_MESSAGE_LEN &&
    (r.length > 0 ==> Decodable(LocalBuffer(r.written, stale)))
  }

  // ---------------------------------------------------------------------
  // Element extraction in DIS_getElements
  // ---------------------------------------------------------------------

  /** `getCurrentRxPointerIndex(e)` before its 16-bit truncation: the
      offset widths of the specifiers before `e`, times the length. */
  function PointerIndex(tags: seq<Tag>, length: nat, e: nat): nat
    requires e <= |tags|
  {
    if e == 0 then 0 else PointerIndex(tags, length, e - 1) + length * OffsetWidth(tags[e - 1])
  }

  /** The element loop of a numeric case of `DIS_getElements` reads `w`
      octets per element while fewer than `remaining` octets have been
      consumed: the reads stay inside `bs`. */
  predicate ReadsFit(bs: seq<Byte>, remaining: int, w: nat)
    requires w > 0
    decreases remaining
  {
    remaining <= 0 || (w <= |bs| && ReadsFit(bs[w..], remaining - w, w))
  }

  /** The elements that loop writes to the destination, in order. */
  function ReadElements(t: Tag, bs: seq<Byte>, remaining: int): seq<int>
    requires IsNumeric(t) && ReadsFit(bs, remaining, ElementWidth(t))
    decreases remaining
  {
    var w := ElementWidth(t);
    if remaining <= 0 then []
    else [ElementValue(t, bs[..w])] + ReadElements(t, bs[w..], remaining - w)
  }

  /** The reads of `DIS_getElements(e)` stay inside the stored data: the
      string case copies `length8bit` octets from the start, a numeric case
      reads from the 16-bit element offset on. */
  predicate ExtractDefined(tags: seq<Tag>, length: nat, l8: nat, data: seq<Byte>, e: nat) {
    e < |tags| &&
    var t := tags[e];
    if t == NONE || t == STRING then l8 <= |data|
    else if IsNumeric(t) then
      var cur := PointerIndex(tags, length, e) % 0x1_0000;
      cur <= |data| && ReadsFit(data[cur..], l8, ElementWidth(t))
    else true
  }

  /** What `DIS_getElements(e)` writes to its destination: the first
      `length8bit` octets for an absent or string specifier, whatever the
      offset; for a numeric one, elements read from the element's offset
      until `length8bit` octets are consumed (not just the element's own
      data); nothing for any other specifier. */
  function Extract(tags: seq<Tag>, length: nat, l8: nat, data: seq<Byte>, e: nat): seq<int>
    requires ExtractDefined(tags, length, l8, data, e)
  {
    var t := tags[e];
    if t == NONE || t == STRING then seq(l8, i requires 0 <= i < l8 => data[i] as int)
    else if IsNumeric(t) then
      var cur := PointerIndex(tags, length, e) % 0x1_0000;
      ReadElements(t, data[cur..], l8)
    else []
  }

  // ---------------------------------------------------------------------
  // The subscription table
  // ---------------------------------------------------------------------

  /** One slot of `sub[]`: the raw topic buffer and the callback, with 0
      standing for the null pointer. */
  datatype Subscription = Subscription(topic: seq<char>, callback: nat)

  /** A slot whose buffer has its last character 0, so that `strcmp`
      never reads past it. */
  predicate SlotOk(s: Subscription) {
    |s.topic| == MAX_TOPIC_STR_LEN && s.topic[MAX_TOPIC_STR_LEN - 1] == 0 as char
  }

  /** A slot of zero-initialised static storage. */
  function EmptySlot(): (s: Subscription)
    ensures SlotOk(s)
  {
    Subscription(seq(MAX_TOPIC_STR_LEN, _ => 0 as char), 0)
  }

  /** The position of the first terminator in a buffer. */
  function NulIndex(buf: seq<char>, from: nat): (k: nat)
    requires from <= |buf|
    ensures from <= k <= |buf|
    ensures k < |buf| ==> buf[k] == 0 as char
    ensures forall j :: from <= j < k ==> buf[j] != 0 as char
    decreases |buf| - from
  {
    if from == |buf| || buf[from] == 0 as char then from else NulIndex(buf, from + 1)
  }

  /** The C string a topic buffer holds. */
  function SlotTopic(buf: seq<char>): seq<char> {
    buf[..NulIndex(buf, 0)]
  }

  /** The callbacks `DIS_process` calls for a received topic: in slot
      order, those that are not null and whose slot holds that topic. */
  function Matching(slots: seq<Subscription>, topic: seq<char>): seq<nat> {
    if slots == [] then []
    else
      var last := slots[|slots| - 1];
      Matching(slots[..|slots| - 1], topic) +
      (if SlotTopic(last.topic) == topic && last.callback != 0 then [last.callback] else [])
  }

  /** The first slot with a null callback, or the table size. */
  function FirstFree(slots: seq<Subscription>, from: nat): (k: nat)
    requires from <= |slots|
    ensures from <= k <= |slots|
    ensures k < |slots| ==> slots[k].callback == 0
    ensures forall j :: from <= j < k ==> slots[j].callback != 0
    decreases |slots| - from
  {
    if from == |slots| || slots[from].callback == 0 then from else FirstFree(slots, from + 1)
  }

  /** `DIS_subscribe`: the first free slot takes the callback and the
      topic's characters, written over the start of the old buffer with no
      terminator; a full table is left as it was. */
  function Subscribed(slots: seq<Subscription>, topic: seq<char>, callback: nat): seq<Subscription>
    requires forall i :: 0 <= i < |slots| ==> |topic| <= |slots[i].topic|
  {
    var f := FirstFree(slots, 0);
    if f < |slots| then
      slots[f := Subscription(topic + slots[f].topic[|topic|..], callback)]
    else slots
  }

  /** A slot emptied by `DIS_unsubscribe` or `DIS_init`: null callback and
      a terminator in the first character; the rest of the buffer stays. */
  function Cleared(s: Subscription): Subscription
    requires |s.topic| > 0
  {
    Subscription(s.topic[0 := 0 as char], 0)
  }

  /** `DIS_unsubscribe`: every slot holding the callback is emptied. */
  function Unsubscribed(slots: seq<Subscription>, callback: nat): (r: seq<Subscription>)
    requires forall i :: 0 <= i < |slots| ==> |slots[i].topic| > 0
    ensures |r| == |slots|
  {
    seq(|slots|, i requires 0 <= i < |slots| =>
      if slots[i].callback == callback then Cleared(slots[i]) else slots[i])
  }
}
