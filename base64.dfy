/**
 * Base64 text encoding of byte strings: the alphabet of section 4 of
 * RFC 4648, `=` padding as in section 3.2 and an optional line break
 * after every 76 symbols.
 *
 * `ToBase64` and `FromBase64` are the encoder and decoder loops as the
 * library writes them; `EncodedAsWritten` and `DecodedAsWritten` are the
 * functions they compute.  `Encoded` and `Decoded` are the intended
 * codec: they differ from the written one in the padding count when line
 * breaks are on and in skipping line breaks while decoding.
 */
module Base64 {
  import opened Common

  /** The 64 symbols, in value order: upper case, lower case, digits, `+`, `/`. */
  const Upper: string := "ABCDEFGHIJKLMNOPQRSTUVWXYZ"
  const Lower: string := "abcdefghijklmnopqrstuvwxyz"
  const Digits: string := "0123456789"
  const Alphabet: string := Upper + Lower + Digits + "+/"

  /** Symbols per output line when line breaks are on. */
  const LineLength: nat := 76

  /** The symbol of value `v`, computed from the character ranges. */
  function Symbol(v: nat): char
    requires v < 64
  {
    if v < 26 then ('A' as int + v) as char
    else if v < 52 then ('a' as int + v - 26) as char
    else if v < 62 then ('0' as int + v - 52) as char
    else if v == 62 then '+'
    else '/'
  }

  lemma AlphabetIsSymbols()
    ensures |Alphabet| == 64
    ensures forall v :: 0 <= v < 64 ==> Alphabet[v] == Symbol(v)
  {
    forall v | 0 <= v < 64 ensures Alphabet[v] == Symbol(v) {
      if v < 26 {
        assert Alphabet[v] == Upper[v];
      } else if v < 52 {
        assert Alphabet[v] == Lower[v - 26];
      } else if v < 62 {
        assert Alphabet[v] == Digits[v - 52];
      }
    }
  }

  /** The value of symbol `c`, or -1 when `c` is not a symbol. */
  function IndexOf(c: char): (r: int)
    ensures -1 <= r < 64
    ensures r >= 0 ==> Symbol(r) == c
  {
    if 'A' <= c <= 'Z' then (c as int) - ('A' as int)
    else if 'a' <= c <= 'z' then (c as int) - ('a' as int) + 26
    else if '0' <= c <= '9' then (c as int) - ('0' as int) + 52
    else if c == '+' then 62
    else if c == '/' then 63
    else -1
  }

  lemma AlphabetAt(v: nat)
    requires v < 64
    ensures Alphabet[v] == Symbol(v)
  {
    AlphabetIsSymbols();
  }

  /**
   * IndexOf is the search of the table: the first (and only) position of
   * `c` in the alphabet, and -1 exactly when `c` is not in it.
   */
  lemma IndexOfIsSearch(c: char)
    ensures IndexOf(c) >= 0 ==> Alphabet[IndexOf(c)] == c
    ensures IndexOf(c) >= 0 ==> forall j :: 0 <= j < 64 && Alphabet[j] == c ==> j == IndexOf(c)
    ensures IndexOf(c) < 0 <==> c !in Alphabet
  {
    AlphabetIsSymbols();
    if IndexOf(c) < 0 {
      IndexOfNonSymbol(c);
    }
  }

  /** Only the 64 symbols have a value. */
  lemma IndexOfNonSymbol(c: char)
    requires IndexOf(c) < 0
    ensures forall v :: 0 <= v < 64 ==> Symbol(v) != c
  {
  }

  lemma IndexOfSymbol(v: nat)
    requires v < 64
    ensures IndexOf(Symbol(v)) == v
  {
  }

  // ---------------------------------------------------------------------
  // Sizes

  /** Symbols needed for n bytes, ceil(8n/6). */
  function SymbolCount(n: nat): nat
  {
    (n * 8) / 6 + (if (n * 8) % 6 > 0 then 1 else 0)
  }

  /** The symbol count rounded up to a multiple of 4. */
  function PaddedCount(n: nat): nat
  {
    var t := SymbolCount(n);
    t + (if t % 4 != 0 then 4 - t % 4 else 0)
  }

  /** The encoder's size estimate: the padded count, plus one per 76 when breaking lines. */
  function FinalSize(n: nat, nl: bool): nat
  {
    var p := PaddedCount(n);
    if nl then p + p / LineLength else p
  }

  lemma CountsByRemainder(n: nat)
    ensures n % 3 == 0 ==> SymbolCount(n) == 4 * (n / 3)
    ensures n % 3 == 1 ==> SymbolCount(n) == 4 * (n / 3) + 2
    ensures n % 3 == 2 ==> SymbolCount(n) == 4 * (n / 3) + 3
    ensures PaddedCount(n) == 4 * ((n + 2) / 3)
  {
    var q, r := n / 3, n % 3;
    assert n == 3 * q + r;
    if r == 0 {
      assert n * 8 == 6 * (4 * q);
    } else if r == 1 {
      assert n * 8 == 6 * (4 * q + 1) + 2;
    } else {
      assert n * 8 == 6 * (4 * q + 2) + 4;
    }
    assert (n + 2) / 3 == (if r == 0 then q else q + 1);
  }

  /** Padding adds at most two symbols, and only when n is not a multiple of 3. */
  lemma PaddingIsShort(n: nat)
    ensures SymbolCount(n) <= PaddedCount(n) <= SymbolCount(n) + 2
    ensures PaddedCount(n) == SymbolCount(n) <==> n % 3 == 0
    ensures PaddedCount(n) % 4 == 0
  {
    CountsByRemainder(n);
  }

  // ---------------------------------------------------------------------
  // Symbols of the encoding

  /** Where the encoder's input iterator stands at the start of step i. */
  function Cursor(i: nat): nat
  {
    3 * (i / 4) + (if i % 4 == 0 then 0 else i % 4 - 1)
  }

  lemma CursorStep(i: nat)
    ensures Cursor(i + 1) == Cursor(i) + (if i % 4 == 0 then 0 else 1)
  {
  }

  /** The encoder runs exactly SymbolCount(n) steps before its iterator reaches the end. */
  lemma {:induction false} CursorInRange(n: nat, i: nat)
    ensures Cursor(i) < n <==> i < SymbolCount(n)
    ensures i <= SymbolCount(n) ==> Cursor(i) <= n
  {
    CountsByRemainder(n);
    var g, p := i / 4, i % 4;
    assert i == 4 * g + p;
    var q := n / 3;
    assert n == 3 * q + n % 3;
  }

  /**
   * The 6-bit value a phase cuts from the current byte and the next one:
   * the top six bits of the first, two bits of the first and four of the
   * second, four of the first and two of the second, the low six bits of
   * the first.
   */
  function PhaseValue(b: byte, next: byte, phase: nat): (v: nat)
    requires phase < 4
    ensures v < 64
  {
    if phase == 0 then b as nat / 4
    else if phase == 1 then (b as nat % 4) * 16 + next as nat / 16
    else if phase == 2 then (b as nat % 16) * 4 + next as nat / 64
    else b as nat % 64
  }

  /** Byte k of d, or 0 past the end. */
  function ByteAt(d: seq<byte>, k: nat): byte
  {
    if k < |d| then d[k] else 0
  }

  /** The 6-bit value emitted at step i: phase i % 4 applied at the cursor. */
  function SymbolValue(d: seq<byte>, i: nat): (v: nat)
    ensures v < 64
  {
    PhaseValue(ByteAt(d, Cursor(i)), ByteAt(d, Cursor(i) + 1), i % 4)
  }

  /** The symbol values of the encoding of d, without padding or line breaks. */
  function Values(d: seq<byte>): (r: seq<nat>)
    ensures |r| == SymbolCount(|d|)
    ensures forall i :: 0 <= i < |r| ==> r[i] == SymbolValue(d, i) && r[i] < 64
  {
    seq(SymbolCount(|d|), i requires 0 <= i => SymbolValue(d, i))
  }

  /** The encoding of d as symbols, without padding or line breaks. */
  function Text(d: seq<byte>): (r: string)
    ensures |r| == SymbolCount(|d|)
    ensures forall i :: 0 <= i < |r| ==> r[i] == Symbol(SymbolValue(d, i))
  {
    seq(SymbolCount(|d|), i requires 0 <= i => Symbol(SymbolValue(d, i)))
  }

  // ---------------------------------------------------------------------
  // Line breaks

  /** s with a line break after every 76th character. */
  function Wrap(s: string): string
  {
    if s == [] then []
    else Wrap(s[..|s| - 1]) + [s[|s| - 1]] + (if |s| % LineLength == 0 then "\n" else "")
  }

  function Layout(s: string, nl: bool): string
  {
    if nl then Wrap(s) else s
  }

  lemma WrapAppend(s: string, c: char)
    ensures Wrap(s + [c]) == Wrap(s) + [c] + (if (|s| + 1) % LineLength == 0 then "\n" else "")
  {
    assert (s + [c])[..|s|] == s;
  }

  lemma {:induction false} WrapLength(s: string)
    ensures |Wrap(s)| == |s| + |s| / LineLength
  {
    if s != [] {
      WrapLength(s[..|s| - 1]);
    }
  }

  lemma {:induction false} WrapShort(s: string)
    requires |s| < LineLength
    ensures Wrap(s) == s
  {
    if s != [] {
      WrapShort(s[..|s| - 1]);
    }
  }

  /** Line breaks sit exactly at the positions 77k - 1 of the wrapped text. */
  lemma {:induction false} WrapBreaks(s: string)
    requires '\n' !in s
    ensures |Wrap(s)| == |s| + |s| / LineLength
    ensures forall j :: 0 <= j < |Wrap(s)| ==> (Wrap(s)[j] == '\n' <==> (j + 1) % (LineLength + 1) == 0)
  {
    WrapLength(s);
    if s != [] {
      var t := s[..|s| - 1];
      assert '\n' !in t by {
        forall j | 0 <= j < |t| ensures t[j] != '\n' { assert t[j] == s[j]; }
      }
      WrapBreaks(t);
      var m := |t|;
      var w := Wrap(t);
      var a, b := m / 76, m % 76;
      assert m == 76 * a + b;
      assert |w| == 77 * a + b;
      assert (|w| + 1) % 77 != 0;
      if |s| % 76 == 0 {
        assert b == 75;
        assert (|w| + 2) % 77 == 0;
      }
    }
  }

  /** Removing the line breaks from the wrapped text gives the text back. */
  function Strip(s: string): (r: string)
    ensures |r| <= |s|
  {
    if s == [] then []
    else Strip(s[..|s| - 1]) + (if s[|s| - 1] in "\r\n" then "" else [s[|s| - 1]])
  }

  lemma {:induction false} StripAppend(s: string, t: string)
    ensures Strip(s + t) == Strip(s) + Strip(t)
    decreases |t|
  {
    if t == [] {
      assert s + t == s;
    } else {
      var u := t[..|t| - 1];
      assert (s + t)[..|s + t| - 1] == s + u;
      assert (s + t)[|s + t| - 1] == t[|t| - 1];
      StripAppend(s, u);
    }
  }

  predicate NoBreaks(s: string)
  {
    forall j :: 0 <= j < |s| ==> s[j] != '\r' && s[j] != '\n'
  }

  lemma StripChar(c: char)
    ensures Strip([c]) == if c == '\r' || c == '\n' then [] else [c]
  {
    assert [c][..0] == [];
  }

  lemma {:induction false} StripPlain(s: string)
    requires NoBreaks(s)
    ensures Strip(s) == s
  {
    if s != [] {
      StripPlain(s[..|s| - 1]);
    }
  }

  lemma StripSnoc(x: string, c: char)
    ensures Strip(x + [c]) == Strip(x) + (if c == '\r' || c == '\n' then [] else [c])
  {
    assert (x + [c])[..|x|] == x;
  }

  lemma {:induction false} StripWrap(s: string)
    requires NoBreaks(s)
    ensures Strip(Wrap(s)) == s
  {
    if s != [] {
      var t, c := s[..|s| - 1], s[|s| - 1];
      assert NoBreaks(t);
      StripWrap(t);
      StripSnoc(Wrap(t), c);
      if |s| % LineLength == 0 {
        assert Wrap(s) == (Wrap(t) + [c]) + ['\n'];
        StripSnoc(Wrap(t) + [c], '\n');
      } else {
        assert Wrap(s) == Wrap(t) + [c];
      }
      assert s == t + [c];
    }
  }

  // ---------------------------------------------------------------------
  // Encoding

  function Fill(c: char, k: nat): (r: string)
    ensures |r| == k && forall j :: 0 <= j < k ==> r[j] == c
  {
    seq(k, _ => c)
  }

  /**
   * What the library's encoder returns: the symbols, broken into lines
   * when nl holds, then, when pad holds and the text is shorter than the
   * size estimate, as many `=` as make up the difference.
   */
  function EncodedAsWritten(d: seq<byte>, nl: bool, pad: bool): string
  {
    var body := Layout(Text(d), nl);
    var size := FinalSize(|d|, nl);
    if |body| < size && pad then body + Fill('=', size - |body|) else body
  }

  /**
   * The intended encoder: the symbols, broken into lines when nl holds,
   * followed by the `=` that bring the symbol count to a multiple of 4.
   */
  function Encoded(d: seq<byte>, nl: bool, pad: bool): string
  {
    Layout(Text(d), nl) + Padding(|d|, pad)
  }

  /** The `=` that bring the symbol count of n bytes to a multiple of 4, when padding. */
  function Padding(n: nat, pad: bool): string
  {
    if pad then Fill('=', PaddedCount(n) - SymbolCount(n)) else ""
  }

  /** Laying out one more symbol appends it, and a line break after every 76th. */
  lemma LayoutStep(s: string, i: nat, nl: bool)
    requires i < |s|
    ensures Layout(s[..i + 1], nl) == Layout(s[..i], nl) + [s[i]] + (if (i + 1) % LineLength == 0 && nl then "\n" else "")
  {
    assert s[..i + 1] == s[..i] + [s[i]];
    if nl {
      WrapAppend(s[..i], s[i]);
    }
  }

  /** The encoder loop (para_base64): one symbol per step, phase i % 4. */
  method ToBase64(d: seq<byte>, nl: bool, pad: bool) returns (r: string)
    ensures r == EncodedAsWritten(d, nl, pad)
  {
    var finalSize := FinalSize(|d|, nl);
    r := [];
    var it := 0;
    var i := 0;
    while it != |d|
      invariant i <= SymbolCount(|d|)
      invariant it == Cursor(i) <= |d|
      invariant r == Layout(Text(d)[..i], nl)
      decreases SymbolCount(|d|) - i
    {
      CursorInRange(|d|, i);
      var b := d[it];
      var next := if it + 1 < |d| then d[it + 1] else 0;
      var v := PhaseValue(b, next, i % 4);
      if i % 4 != 0 {
        it := it + 1;
      }
      AlphabetAt(v);
      r := r + [Alphabet[v]];
      if (i + 1) % LineLength == 0 && nl {
        r := r + "\n";
      }
      LayoutStep(Text(d), i, nl);
      CursorStep(i);
      i := i + 1;
      CursorInRange(|d|, i);
    }
    CursorInRange(|d|, i);
    assert Text(d)[..i] == Text(d);

    if |r| < finalSize && pad {
      r := r + Fill('=', finalSize - |r|);
    }
  }

  // ---------------------------------------------------------------------
  // Decoding

  /** Index of the first `=` in s, or |s|. */
  function FirstPad(s: string): (k: nat)
    ensures k <= |s|
    ensures forall j :: 0 <= j < k ==> s[j] != '='
    ensures k < |s| ==> s[k] == '='
  {
    if s == [] then 0
    else if s[0] == '=' then 0
    else 1 + FirstPad(s[1..])
  }

  predicate AllSymbols(h: string)
  {
    forall j :: 0 <= j < |h| ==> IndexOf(h[j]) >= 0
  }

  /** The values of the symbols of h. */
  function ValuesOf(h: string): (v: seq<nat>)
    requires AllSymbols(h)
    ensures |v| == |h| && forall j :: 0 <= j < |h| ==> v[j] == IndexOf(h[j]) < 64
  {
    seq(|h|, j requires 0 <= j < |h| => IndexOf(h[j]) as nat)
  }

  predicate SixBit(v: seq<nat>)
  {
    forall j :: 0 <= j < |v| ==> v[j] < 64
  }

  /**
   * The bits a symbol of value x, read in phase p, leaves for the next
   * one: all six in phase 0, the low four in phase 1, the low two in
   * phase 2.
   */
  function Carry(x: nat, p: nat): (r: nat)
    ensures x < 64 ==> r < 64
    ensures p == 1 ==> r < 16
    ensures p >= 2 ==> r < 4
  {
    if p == 0 then x else if p == 1 then x % 16 else x % 4
  }

  /**
   * The byte completed in phase p (1, 2 or 3) from the carried bits and
   * the new symbol x: the carried bits shifted left by 2, 4 or 6, or-ed
   * with the top 6, 4 or 2 bits of x.  The carried bits are 6, 4 or 2
   * wide, so the shift stays within the byte and the fields are
   * disjoint: the or is a sum.
   */
  function Emit(carried: nat, x: nat, p: nat): byte
    requires x < 64 && 1 <= p <= 3
    requires p == 1 ==> carried < 64
    requires p == 2 ==> carried < 16
    requires p == 3 ==> carried < 4
  {
    if p == 1 then (carried * 4 + x / 16) as byte
    else if p == 2 then (carried * 16 + x / 4) as byte
    else (carried * 64 + x) as byte
  }

  /**
   * Byte j of the decoding of the 6-bit values v: byte t of group g is
   * completed by value 4g + t + 1 from the bits value 4g + t carries.
   */
  function DecodedByte(v: seq<nat>, j: nat): byte
    requires SixBit(v)
    requires 4 * (j / 3) + j % 3 + 1 < |v|
  {
    var k := 4 * (j / 3) + j % 3;
    Emit(Carry(v[k], j % 3), v[k + 1], j % 3 + 1)
  }

  lemma {:induction false} UnpackIndexInRange(len: nat, j: nat)
    requires j < 3 * len / 4
    ensures 4 * (j / 3) + j % 3 + 1 < len
  {
    var q, rm := len / 4, len % 4;
    assert len == 4 * q + rm;
    var g, t := j / 3, j % 3;
    assert j == 3 * g + t;
    assert 3 * len / 4 == 3 * q + (3 * rm) / 4;
  }

  /** The bytes carried by the 6-bit values v: floor(3|v|/4) of them. */
  function Unpack(v: seq<nat>): (r: seq<byte>)
    requires SixBit(v)
    ensures |r| == 3 * |v| / 4
  {
    seq(3 * |v| / 4, j requires 0 <= j < 3 * |v| / 4 => (UnpackIndexInRange(|v|, j); DecodedByte(v, j)))
  }

  /** Number of characters other than CR and LF. */
  function DataCount(s: string): nat
  {
    |Strip(s)|
  }

  /**
   * What the library's decoder returns: with pad, a length error unless
   * the characters other than CR/LF are a multiple of 4; then an alphabet
   * error if anything before the first `=` (line breaks included) is not
   * a symbol; otherwise the bytes those symbols carry.
   */
  function DecodedAsWritten(s: string, pad: bool): Result<seq<byte>>
  {
    if pad && DataCount(s) % 4 != 0 then Err(Base64Length)
    else
      var h := s[..FirstPad(s)];
      if !AllSymbols(h) then Err(Base64Alphabet) else Ok(Unpack(ValuesOf(h)))
  }

  /** The intended decoder: the same, with CR and LF skipped everywhere. */
  function Decoded(s: string, pad: bool): Result<seq<byte>>
  {
    DecodedAsWritten(Strip(s), pad)
  }

  /** Arithmetic of the byte count when one more symbol arrives. */
  lemma UnpackCount(n: nat)
    ensures 3 * (n + 1) / 4 == 3 * n / 4 + (if n % 4 == 0 then 0 else 1)
    ensures n % 4 != 0 ==> 4 * ((3 * n / 4) / 3) + (3 * n / 4) % 3 == n - 1
    ensures n % 4 != 0 ==> (3 * n / 4) % 3 + 1 == n % 4
  {
    var q, r := n / 4, n % 4;
    assert n == 4 * q + r;
    if r == 0 {
      assert 3 * n == 4 * (3 * q);
      assert 3 * (n + 1) == 4 * (3 * q) + 3;
    } else if r == 1 {
      assert 3 * n == 4 * (3 * q) + 3;
      assert 3 * (n + 1) == 4 * (3 * q + 1) + 2;
    } else if r == 2 {
      assert 3 * n == 4 * (3 * q + 1) + 2;
      assert 3 * (n + 1) == 4 * (3 * q + 2) + 1;
    } else {
      assert 3 * n == 4 * (3 * q + 2) + 1;
      assert 3 * (n + 1) == 4 * (3 * q + 3);
    }
  }

  /** The bytes decoded from a prefix are a prefix of the bytes decoded from the whole. */
  lemma UnpackPrefix(v: seq<nat>, w: seq<nat>)
    requires SixBit(w) && |v| <= |w| && w[..|v|] == v
    ensures SixBit(v)
    ensures |Unpack(v)| <= |Unpack(w)| && Unpack(w)[..|Unpack(v)|] == Unpack(v)
  {
    assert forall k :: 0 <= k < |v| ==> v[k] == w[k];
    forall j | 0 <= j < |Unpack(v)|
      ensures Unpack(w)[j] == Unpack(v)[j]
    {
      UnpackIndexInRange(|v|, j);
    }
  }

  lemma UnpackSnoc(v: seq<nat>, x: nat)
    requires SixBit(v) && x < 64
    ensures SixBit(v + [x])
    ensures |v| % 4 == 0 ==> Unpack(v + [x]) == Unpack(v)
    ensures |v| % 4 != 0 ==> Unpack(v + [x]) == Unpack(v) + [Emit(Carry(v[|v| - 1], |v| % 4 - 1), x, |v| % 4)]
  {
    var w := v + [x];
    var n := |v|;
    assert w[..n] == v;
    UnpackPrefix(v, w);
    UnpackCount(n);
    var u := Unpack(w);
    if n % 4 != 0 {
      var j := 3 * n / 4;
      var t := j % 3;
      assert 4 * (j / 3) + t == n - 1;
      assert u[j] == Emit(Carry(w[n - 1], t), w[n], t + 1);
      assert u == Unpack(v) + [u[j]];
    } else {
      assert u == Unpack(v);
    }
  }

  /** Consuming symbol i adds the byte its phase completes, if any. */
  lemma DecodeStep(s: string, i: nat)
    requires i < |s| && AllSymbols(s[..i]) && IndexOf(s[i]) >= 0
    ensures AllSymbols(s[..i + 1])
    ensures i % 4 == 0 ==> Unpack(ValuesOf(s[..i + 1])) == Unpack(ValuesOf(s[..i]))
    ensures i % 4 != 0 ==>
              Unpack(ValuesOf(s[..i + 1])) == Unpack(ValuesOf(s[..i])) + [Emit(Carry(IndexOf(s[i - 1]), i % 4 - 1), IndexOf(s[i]), i % 4)]
  {
    var h := s[..i];
    var x: nat := IndexOf(s[i]);
    assert s[..i + 1] == h + [s[i]];
    ValuesOfSnoc(h, s[i]);
    var v := ValuesOf(h);
    UnpackSnoc(v, x);
    if i > 0 {
      assert v[i - 1] == IndexOf(s[i - 1]) by {
        assert h[i - 1] == s[i - 1];
      }
    }
  }

  lemma ValuesOfSnoc(h: string, c: char)
    requires AllSymbols(h) && IndexOf(c) >= 0
    ensures AllSymbols(h + [c])
    ensures ValuesOf(h + [c]) == ValuesOf(h) + [IndexOf(c) as nat]
  {
    var w := h + [c];
    assert forall j :: 0 <= j < |h| ==> w[j] == h[j];
  }

  lemma PhaseNext(i: nat)
    ensures (i + 1) % 4 == if i % 4 == 3 then 0 else i % 4 + 1
  {
  }

  /** The decoder loop (de_base64): validates, then consumes symbols until the first `=`. */
  method FromBase64(s: string, pad: bool) returns (r: Result<seq<byte>>)
    ensures r == DecodedAsWritten(s, pad)
  {
    var count := DataCount(s);
    if pad && count % 4 != 0 {
      return Err(Base64Length);
    }

    var ret: seq<byte> := [];
    var previous: nat := 0;
    var i := 0;
    while i < |s| && s[i] != '='
      invariant i <= FirstPad(s)
      invariant AllSymbols(s[..i])
      invariant ret == Unpack(ValuesOf(s[..i]))
      invariant i % 4 != 0 ==> previous == Carry(IndexOf(s[i - 1]), i % 4 - 1)
    {
      var position := IndexOf(s[i]);
      if position < 0 {
        assert !AllSymbols(s[..FirstPad(s)]) by {
          assert s[..FirstPad(s)][i] == s[i];
        }
        return Err(Base64Alphabet);
      }
      var value: nat := position;
      DecodeStep(s, i);
      if i % 4 == 0 {
        previous := value;
      } else if i % 4 == 1 {
        ret := ret + [Emit(previous, value, 1)];
        previous := value % 16;
      } else if i % 4 == 2 {
        ret := ret + [Emit(previous, value, 2)];
        previous := value % 4;
      } else {
        ret := ret + [Emit(previous, value, 3)];
      }
      PhaseNext(i);
      i := i + 1;
    }
    assert i == FirstPad(s);
    r := Ok(ret);
  }

  // ---------------------------------------------------------------------
  // Properties of the encoder

  /** The symbols of the encoding are table symbols: no `=`, no line break. */
  lemma TextIsSymbols(d: seq<byte>)
    ensures NoBreaks(Text(d))
    ensures forall j :: 0 <= j < |Text(d)| ==> Text(d)[j] != '='
    ensures AllSymbols(Text(d))
    ensures ValuesOf(Text(d)) == Values(d)
  {
    forall j | 0 <= j < |Text(d)|
      ensures IndexOf(Text(d)[j]) == SymbolValue(d, j)
    {
      IndexOfSymbol(SymbolValue(d, j));
    }
  }

  lemma TextInAlphabet(d: seq<byte>)
    ensures forall c :: c in Text(d) ==> c in Alphabet
  {
    AlphabetIsSymbols();
    forall c | c in Text(d) ensures c in Alphabet {
      var j :| 0 <= j < |Text(d)| && Text(d)[j] == c;
      assert Alphabet[SymbolValue(d, j)] == c;
    }
  }

  /** Every character the encoder emits is a symbol, `=` or a line break. */
  lemma EncodedCharacters(d: seq<byte>, nl: bool, pad: bool)
    ensures forall c :: c in EncodedAsWritten(d, nl, pad) ==> c in Alphabet || c == '=' || c == '\n'
    ensures forall c :: c in Encoded(d, nl, pad) ==> c in Alphabet || c == '=' || c == '\n'
  {
    TextInAlphabet(d);
    if nl {
      WrapChars(Text(d));
    }
  }

  lemma {:induction false} WrapChars(s: string)
    ensures forall c :: c in Wrap(s) ==> c in s || c == '\n'
  {
    if s != [] {
      WrapChars(s[..|s| - 1]);
      forall c | c in s[..|s| - 1] ensures c in s { }
    }
  }

  /**
   * Without line breaks the written encoder pads to 4 * ceil(n/3)
   * characters ending in at most two `=`, and without padding it emits
   * ceil(8n/6) symbols and no `=`.
   */
  lemma EncodedLength(d: seq<byte>)
    ensures var r := EncodedAsWritten(d, false, true);
      |r| == 4 * ((|d| + 2) / 3)
      && r[..SymbolCount(|d|)] == Text(d)
      && |r| - SymbolCount(|d|) <= 2
      && forall j :: SymbolCount(|d|) <= j < |r| ==> r[j] == '='
    ensures var r := EncodedAsWritten(d, false, false);
      |r| == SymbolCount(|d|) && '=' !in r
  {
    CountsByRemainder(|d|);
    PaddingIsShort(|d|);
    TextIsSymbols(d);
  }

  /** Without line breaks the written encoder is the intended one. */
  lemma EncodedAsWrittenUnbroken(d: seq<byte>, pad: bool)
    ensures EncodedAsWritten(d, false, pad) == Encoded(d, false, pad)
  {
    PaddingIsShort(|d|);
  }

  /** With line breaks, a `\n` follows every 76th symbol and nothing else is a `\n`. */
  lemma EncodedLineBreaks(d: seq<byte>, pad: bool)
    ensures var r := EncodedAsWritten(d, true, pad);
      forall j :: 0 <= j < |Wrap(Text(d))| ==> (r[j] == '\n' <==> (j + 1) % (LineLength + 1) == 0)
  {
    TextIsSymbols(d);
    WrapBreaks(Text(d));
  }

  // ---------------------------------------------------------------------
  // Round trip

  /** Each emitting phase of the decoder undoes the matching cuts of the encoder. */
  lemma PhasesInvert(a: byte, b: byte, next: byte)
    ensures Emit(Carry(PhaseValue(b, next, 0), 0), PhaseValue(b, next, 1), 1) == b
    ensures Emit(Carry(PhaseValue(a, b, 1), 1), PhaseValue(b, next, 2), 2) == b
    ensures Emit(Carry(PhaseValue(a, b, 2), 2), PhaseValue(b, next, 3), 3) == b
  {
    var x := b as nat;
    assert ((x % 4) * 16 + next as nat / 16) / 16 == x % 4;
    assert ((a as nat % 4) * 16 + x / 16) % 16 == x / 16;
    assert ((x % 16) * 4 + next as nat / 64) / 4 == x % 16;
    assert ((a as nat % 16) * 4 + x / 64) % 4 == x / 64;
  }

  /** Where the encoder's cursor stands around the symbols that carry byte j. */
  lemma CursorAroundByte(j: nat)
    ensures var k := 4 * (j / 3) + j % 3;
      Cursor(k + 1) == j && (j % 3 == 0 ==> Cursor(k) == j) && (j % 3 != 0 ==> Cursor(k) + 1 == j)
  {
    var g, t := j / 3, j % 3;
    assert j == 3 * g + t;
  }

  /** Byte j of the input is rebuilt from symbols j + j/3 and j + j/3 + 1. */
  lemma DecodedByteOfValues(d: seq<byte>, j: nat)
    requires j < |d|
    ensures 4 * (j / 3) + j % 3 + 1 < SymbolCount(|d|)
    ensures DecodedByte(Values(d), j) == d[j]
  {
    var k := 4 * (j / 3) + j % 3;
    CursorAroundByte(j);
    CursorInRange(|d|, k + 1);
    var v := Values(d);
    var t := j % 3;
    assert (k + 1) % 4 == t + 1 && k % 4 == t;
    assert v[k + 1] == PhaseValue(d[j], ByteAt(d, j + 1), t + 1);
    if t == 0 {
      assert v[k] == PhaseValue(d[j], ByteAt(d, j + 1), 0);
    } else {
      assert v[k] == PhaseValue(ByteAt(d, Cursor(k)), d[j], t);
    }
    PhasesInvert(ByteAt(d, Cursor(k)), d[j], ByteAt(d, j + 1));
  }

  lemma UnpackValues(d: seq<byte>)
    ensures Unpack(Values(d)) == d
  {
    CountsByRemainder(|d|);
    var u := Unpack(Values(d));
    assert |u| == |d|;
    forall j | 0 <= j < |d| ensures u[j] == d[j] {
      DecodedByteOfValues(d, j);
    }
  }

  /**
   * Symbols followed by `=` padding decode, when the length check passes,
   * to the bytes the symbols carry.
   */
  lemma DecodeSymbolsThenPad(t: string, f: string, pad: bool)
    requires AllSymbols(t)
    requires forall j :: 0 <= j < |f| ==> f[j] == '='
    requires pad ==> (|t| + |f|) % 4 == 0
    ensures DecodedAsWritten(t + f, pad) == Ok(Unpack(ValuesOf(t)))
  {
    var s := t + f;
    assert NoBreaks(s) by {
      forall j | 0 <= j < |s| ensures s[j] != '\r' && s[j] != '\n' {
        if j < |t| {
          assert s[j] == t[j] && IndexOf(t[j]) >= 0;
        }
      }
    }
    StripPlain(s);
    assert FirstPad(s) == |t| by {
      forall j | 0 <= j < |t| ensures s[j] != '=' {
        assert s[j] == t[j] && IndexOf(t[j]) >= 0;
      }
      if |f| > 0 {
        assert s[|t|] == '=';
      }
    }
    assert s[..|t|] == t;
  }

  /** Removing the line breaks from an encoding leaves the symbols and the padding. */
  lemma StripEncoded(d: seq<byte>, nl: bool, pad: bool)
    ensures Strip(Encoded(d, nl, pad)) == Text(d) + Padding(|d|, pad)
  {
    TextIsSymbols(d);
    StripAppend(Layout(Text(d), nl), Padding(|d|, pad));
    if nl {
      StripWrap(Text(d));
    } else {
      StripPlain(Text(d));
    }
    StripPlain(Padding(|d|, pad));
  }

  lemma PaddingFacts(n: nat, pad: bool)
    ensures forall j :: 0 <= j < |Padding(n, pad)| ==> Padding(n, pad)[j] == '='
    ensures pad ==> (SymbolCount(n) + |Padding(n, pad)|) % 4 == 0
  {
    PaddingIsShort(n);
  }

  /** The symbols of d followed by its padding decode to d. */
  lemma SymbolsThenPaddingDecode(d: seq<byte>, pad: bool)
    ensures DecodedAsWritten(Text(d) + Padding(|d|, pad), pad) == Ok(d)
  {
    var t, f := Text(d), Padding(|d|, pad);
    TextIsSymbols(d);
    PaddingFacts(|d|, pad);
    assert AllSymbols(t);
    assert forall j :: 0 <= j < |f| ==> f[j] == '=';
    assert pad ==> (|t| + |f|) % 4 == 0;
    DecodeSymbolsThenPad(t, f, pad);
    UnpackValues(d);
  }

  /** The intended codec round-trips for every layout and padding choice. */
  lemma RoundTrip(d: seq<byte>, nl: bool, pad: bool)
    ensures Decoded(Encoded(d, nl, pad), pad) == Ok(d)
  {
    StripEncoded(d, nl, pad);
    SymbolsThenPaddingDecode(d, pad);
  }

  /** The written decoder undoes the written encoder when lines are not broken. */
  lemma RoundTripAsWritten(d: seq<byte>, pad: bool)
    ensures DecodedAsWritten(EncodedAsWritten(d, false, pad), pad) == Ok(d)
  {
    EncodedAsWrittenUnbroken(d, pad);
    SymbolsThenPaddingDecode(d, pad);
  }

  /** A decoding carries floor(3k/4) bytes for the k symbols before the first `=`. */
  lemma DecodedLength(s: string, pad: bool)
    ensures DecodedAsWritten(s, pad).Ok? ==> |DecodedAsWritten(s, pad).value| == 3 * FirstPad(s) / 4
  {
  }

  // ---------------------------------------------------------------------
  // Where the written codec falls short

  /**
   * With line breaks on, 56 bytes give 75 symbols: the size estimate
   * counts a line break that is never emitted, so the written encoder
   * pads with "==" instead of "=", and its own decoder then rejects the
   * text for its length.
   */
  lemma PaddingCountsPhantomBreak(d: seq<byte>)
    requires |d| == 56
    ensures EncodedAsWritten(d, true, true) == Text(d) + "=="
    ensures Encoded(d, true, true) == Text(d) + "="
    ensures DecodedAsWritten(EncodedAsWritten(d, true, true), true) == Err(Base64Length)
  {
    assert SymbolCount(56) == 75;
    assert PaddedCount(56) == 76;
    WrapShort(Text(d));
    TextIsSymbols(d);
    StripPlain(Text(d) + "==");
  }

  /**
   * With line breaks on, 57 bytes give 76 symbols followed by a line
   * break; the written decoder rejects the break as a non-symbol although
   * its length check skips it.
   */
  lemma DecoderRejectsLineBreak(d: seq<byte>)
    requires |d| == 57
    ensures EncodedAsWritten(d, true, true) == Text(d) + "\n"
    ensures DecodedAsWritten(EncodedAsWritten(d, true, true), true) == Err(Base64Alphabet)
  {
    BreakAfterFullLine(d);
    TextIsSymbols(d);
    RejectsTrailingBreak(Text(d));
  }

  /** A whole number of symbol groups followed by a line break fails the written decoder's alphabet test. */
  lemma RejectsTrailingBreak(t: string)
    requires NoBreaks(t) && |t| % 4 == 0
    requires forall j :: 0 <= j < |t| ==> t[j] != '='
    ensures DecodedAsWritten(t + "\n", true) == Err(Base64Alphabet)
  {
    var s := t + "\n";
    StripBreakAfter(t);
    assert DataCount(s) % 4 == 0;
    assert FirstPad(s) == |s| by {
      assert forall j :: 0 <= j < |t| ==> s[j] == t[j];
    }
    assert s[..|s|] == s;
    assert IndexOf(s[|t|]) < 0;
  }

  /** The intended decoder, which skips the line break, recovers the 57 bytes. */
  lemma DecoderSkipsLineBreak(d: seq<byte>)
    requires |d| == 57
    ensures Decoded(EncodedAsWritten(d, true, true), true) == Ok(d)
  {
    BreakAfterFullLine(d);
    TextIsSymbols(d);
    StripBreakAfter(Text(d));
    EncodedAsWrittenUnbroken(d, true);
    assert Padding(57, true) == [];
    RoundTripAsWritten(d, true);
  }

  lemma StripBreakAfter(t: string)
    requires NoBreaks(t)
    ensures Strip(t + "\n") == t
  {
    StripAppend(t, "\n");
    StripPlain(t);
    StripChar('\n');
  }

  /** With 57 bytes the 76 symbols fill one line exactly, and the break after it is the whole tail. */
  lemma BreakAfterFullLine(d: seq<byte>)
    requires |d| == 57
    ensures EncodedAsWritten(d, true, true) == Text(d) + "\n"
  {
    assert SymbolCount(57) == 76;
    assert PaddedCount(57) == 76;
    var t := Text(d);
    WrapShort(t[..75]);
    assert t[..75] + [t[75]] == t;
    WrapAppend(t[..75], t[75]);
  }
}
