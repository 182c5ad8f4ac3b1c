/**
 * The shared formatting helpers of the widget: display text, search
 * normalisation, phone digits, clamping, avatar initials and colour, and the
 * star rating.
 */
module Common {
  import opened Wrappers
  import opened Text
  import opened JsValues
  import opened Doubles

  /** `safeText`: the trimmed text of a value, or an em dash when nothing is left. */
  function SafeText(v: Option<Value>): (r: string)
    ensures r != [] && IsTrimmed(r)
    ensures Trim(TextOf(v)) != [] ==> r == Trim(TextOf(v))
    ensures AllWhitespace(TextOf(v)) ==> r == "—"
  {
    var s := Trim(TextOf(v));
    if |s| > 0 then s else "—"
  }

  /** Padding around a non-empty text does not show: the text is displayed as it is. */
  lemma SafeTextIgnoresPadding(pre: string, t: string, post: string)
    requires AllWhitespace(pre) && AllWhitespace(post)
    requires t != [] && IsTrimmed(t)
    ensures SafeText(Some(Str(pre + t + post))) == t
  {
    TrimStripsPadding(pre, t, post);
  }

  /** Displaying a displayed text again changes nothing. */
  lemma SafeTextIdempotent(v: Option<Value>)
    ensures SafeText(Some(Str(SafeText(v)))) == SafeText(v)
  {
    TrimOfTrimmed(SafeText(v));
  }

  /** No ASCII capital letter at index `from` or after. */
  predicate NoUpperFrom(s: string, from: nat)
    decreases |s| - from
  {
    from >= |s| || (!('A' <= s[from] <= 'Z') && NoUpperFrom(s, from + 1))
  }

  /** No ASCII capital letter. */
  predicate NoUpper(s: string) {
    NoUpperFrom(s, 0)
  }

  /** A string in which no position holds a capital has no capital from any index on. */
  lemma {:induction false} NoUpperFromAll(s: string, from: nat)
    requires from <= |s|
    requires forall i :: from <= i < |s| ==> !('A' <= s[i] <= 'Z')
    ensures NoUpperFrom(s, from)
    decreases |s| - from
  {
    if from < |s| {
      NoUpperFromAll(s, from + 1);
    }
  }

  lemma {:induction false} NoUpperFromAt(s: string, from: nat, i: nat)
    requires NoUpperFrom(s, from) && from <= i < |s|
    ensures !('A' <= s[i] <= 'Z')
    decreases i - from
  {
    if from < i {
      NoUpperFromAt(s, from + 1, i);
    }
  }

  /** Lower-casing a string with no capitals changes nothing. */
  lemma LowerOfNoUpper(s: string)
    requires NoUpper(s)
    ensures ToLower(s) == s
  {
    forall i | 0 <= i < |s| ensures LowerChar(s[i]) == s[i] {
      NoUpperFromAt(s, 0, i);
    }
  }

  /** A lower-cased string has no capitals. */
  lemma LowerHasNoUpper(s: string)
    ensures NoUpper(ToLower(s))
  {
    NoUpperFromAll(ToLower(s), 0);
  }

  /** `normalizeText`: trim, then lower-case, for comparison and search. */
  function NormalizeText(v: Option<Value>): (r: string)
    ensures IsTrimmed(r) && NoUpper(r)
    ensures |r| <= |TextOf(v)|
  {
    LowerKeepsTrimmed(Trim(TextOf(v)));
    LowerHasNoUpper(Trim(TextOf(v)));
    ToLower(Trim(TextOf(v)))
  }

  /** Text that is already trimmed and free of capitals is its own normal form. */
  lemma NormalizeTextOfNormal(t: string)
    requires IsTrimmed(t) && NoUpper(t)
    ensures NormalizeText(Some(Str(t))) == t
  {
    TrimOfTrimmed(t);
    LowerOfNoUpper(t);
  }

  /** Whitespace around a text does not change its normal form. */
  lemma NormalizeTextIgnoresPadding(pre: string, t: string, post: string)
    requires AllWhitespace(pre) && AllWhitespace(post)
    ensures NormalizeText(Some(Str(pre + t + post))) == NormalizeText(Some(Str(t)))
  {
    TrimIgnoresPadding(pre, t, post);
  }

  /** Capital letters do not change the normal form: an upper-cased text normalises like the original. */
  lemma NormalizeTextIgnoresCase(t: string)
    ensures NormalizeText(Some(Str(ToUpper(t)))) == NormalizeText(Some(Str(t)))
  {
    TrimOfUpper(t);
    LowerOfUpper(Trim(t));
  }

  /** Normalising normalised text changes nothing. */
  lemma NormalizeTextIdempotent(v: Option<Value>)
    ensures NormalizeText(Some(Str(NormalizeText(v)))) == NormalizeText(v)
  {
    NormalizeTextOfNormal(NormalizeText(v));
  }

  /** `normalizePhone`: only the digits of the value's text. */
  function NormalizePhone(v: Option<Value>): (r: string)
    ensures AllDigits(r)
    ensures |r| <= |TextOf(v)|
    ensures AllDigits(TextOf(v)) ==> r == TextOf(v)
  {
    DigitsOfDigits(if AllDigits(TextOf(v)) then TextOf(v) else []);
    Digits(TextOf(v))
  }

  /** Normalising a normalised phone number changes nothing. */
  lemma NormalizePhoneIdempotent(v: Option<Value>)
    ensures NormalizePhone(Some(Str(NormalizePhone(v)))) == NormalizePhone(v)
  {
  }

  /**
   * The phone filter keeps every digit in order and nothing else: it drops a
   * non-digit, keeps a digit, and works piece by piece on a concatenation.
   */
  lemma NormalizePhoneKeepsDigitsInOrder(a: string, c: char, b: string)
    ensures NormalizePhone(Some(Str(a + [c] + b)))
         == NormalizePhone(Some(Str(a))) + (if IsDigit(c) then [c] else []) + NormalizePhone(Some(Str(b)))
  {
    DigitsAppend(a + [c], b);
    DigitsAppend(a, [c]);
    assert Digits([c]) == (if IsDigit(c) then [c] else []) by {
      assert [c][1..] == [];
    }
  }

  /** `clamp(n, min, max)` as written: `Math.max(min, Math.min(max, n))`. */
  function Clamp(n: int, min: int, max: int): (r: int)
    ensures r >= min
    ensures min <= max ==> min <= r <= max
    ensures min <= n <= max ==> r == n
    ensures n < min ==> r == min
    ensures min <= max && max < n ==> r == max
  {
    var m := if max < n then max else n;
    if min > m then min else m
  }

  /** Number of non-whitespace characters at the start of `s`. */
  function WordLength(s: string): (n: nat)
    ensures n <= |s|
    ensures forall i :: 0 <= i < n ==> !IsWhitespace(s[i])
    ensures n == |s| || IsWhitespace(s[n])
  {
    if s != [] && !IsWhitespace(s[0]) then 1 + WordLength(s[1..]) else 0
  }

  /** `s.split(/\s+/).filter(Boolean)`: the maximal runs of non-whitespace, in order. */
  function Words(s: string): (ws: seq<string>)
    ensures forall i :: 0 <= i < |ws| ==> ws[i] != [] && NoWhitespace(ws[i])
    decreases |s|
  {
    if s == [] then []
    else if IsWhitespace(s[0]) then Words(s[1..])
    else [s[..WordLength(s)]] + Words(s[WordLength(s)..])
  }

  /** A string has no words exactly when it is all whitespace. */
  lemma {:induction false} WordsEmptyIff(s: string)
    ensures Words(s) == [] <==> AllWhitespace(s)
    decreases |s|
  {
    if s != [] && IsWhitespace(s[0]) {
      WordsEmptyIff(s[1..]);
      if AllWhitespace(s[1..]) {
        assert forall i :: 1 <= i < |s| ==> s[i] == s[1..][i - 1];
      }
    }
  }

  /** A single word is split into itself. */
  lemma WordsOfWord(w: string)
    requires w != [] && NoWhitespace(w)
    ensures Words(w) == [w]
  {
    assert WordLength(w) == |w|;
    assert w[..|w|] == w;
    assert w[|w|..] == [];
    assert Words(w[|w|..]) == [];
  }

  /** Splitting at a whitespace character splits the word list there. */
  lemma {:induction false} WordsSplitAt(a: string, c: char, b: string)
    requires IsWhitespace(c)
    ensures Words(a + [c] + b) == Words(a) + Words(b)
    decreases |a|
  {
    if a == [] {
      var s := a + [c] + b;
      assert s == [c] + b;
      WordsSkipSpace(s);
      assert s[1..] == b;
    } else if IsWhitespace(a[0]) {
      calc {
        Words(a + [c] + b);
        == { SplitHead(a, c, b); WordsSkipSpace(a + [c] + b); }
        Words(a[1..] + [c] + b);
        == { WordsSplitAt(a[1..], c, b); }
        Words(a[1..]) + Words(b);
        == { WordsSkipSpace(a); }
        Words(a) + Words(b);
      }
    } else {
      var k := WordLength(a);
      calc {
        Words(a + [c] + b);
        == { AppendAssoc(a, [c], b); }
        Words(a + ([c] + b));
        == { WordStepOfAppend(a, [c] + b); }
        [a[..k]] + Words(a[k..] + ([c] + b));
        == { AppendAssoc(a[k..], [c], b); }
        [a[..k]] + Words(a[k..] + [c] + b);
        == { WordsSplitAt(a[k..], c, b); }
        [a[..k]] + (Words(a[k..]) + Words(b));
        == { WordsStep(a); }
        Words(a) + Words(b);
      }
    }
  }

  /** Concatenation is associative. */
  lemma AppendAssoc(x: string, y: string, z: string)
    ensures x + y + z == x + (y + z)
  {
  }

  /** The tail of `a + [c] + b` after its first character. */
  lemma SplitHead(a: string, c: char, b: string)
    requires a != []
    ensures (a + [c] + b)[0] == a[0] && (a + [c] + b)[1..] == a[1..] + [c] + b
  {
  }

  /** Leading whitespace is skipped. */
  lemma WordsSkipSpace(s: string)
    requires s != [] && IsWhitespace(s[0])
    ensures Words(s) == Words(s[1..])
  {
  }

  /** A leading word is split off whole. */
  lemma WordsStep(s: string)
    requires s != [] && !IsWhitespace(s[0])
    ensures Words(s) == [s[..WordLength(s)]] + Words(s[WordLength(s)..])
  {
  }

  /** The first word of `a + t`, when `t` starts with whitespace, is the first word of `a`. */
  lemma WordStepOfAppend(a: string, t: string)
    requires a != [] && !IsWhitespace(a[0])
    requires t != [] && IsWhitespace(t[0])
    ensures Words(a + t) == [a[..WordLength(a)]] + Words(a[WordLength(a)..] + t)
  {
    var s := a + t;
    var k := WordLength(a);
    WordLengthPrefix(a, t);
    AppendSlices(a, t, k);
    WordsStep(s);
  }

  /** Slicing `a + t` at a point inside `a`. */
  lemma AppendSlices(a: string, t: string, k: nat)
    requires k <= |a|
    ensures (a + t)[..k] == a[..k] && (a + t)[k..] == a[k..] + t
    ensures a != [] ==> (a + t)[0] == a[0]
  {
  }

  /** The first word of `a + t` is the first word of `a` when `t` starts with whitespace or `a` ends inside. */
  lemma WordLengthPrefix(a: string, t: string)
    requires t != [] && IsWhitespace(t[0])
    ensures WordLength(a + t) == WordLength(a)
  {
    if a == [] {
      assert a + t == t;
    } else {
      assert (a + t)[0] == a[0];
      assert (a + t)[1..] == a[1..] + t;
      WordLengthPrefix(a[1..], t);
    }
  }

  /** Leading whitespace does not change the word list. */
  lemma {:induction false} WordsSkipsLeading(pre: string, s: string)
    requires AllWhitespace(pre)
    ensures Words(pre + s) == Words(s)
    decreases |pre|
  {
    if pre != [] {
      assert (pre + s)[1..] == pre[1..] + s;
      WordsSkipsLeading(pre[1..], s);
    } else {
      assert pre + s == s;
    }
  }

  /** `initials`: upper-cased first letter of the first and of the last word, or "--" for a blank name. */
  function Initials(fullName: Option<string>): (r: string)
    ensures |r| <= 2
    ensures AllWhitespace(fullName.GetOr("")) ==> r == "--"
  {
    WordsEmptyIff(Trim(fullName.GetOr("")));
    InitialsOfParts(Words(Trim(fullName.GetOr(""))))
  }

  /** The initials of a word list: "--" when empty, else the first letters of the first and (if different) last word. */
  function InitialsOfParts(parts: seq<string>): (r: string)
    requires forall i :: 0 <= i < |parts| ==> parts[i] != []
    ensures |parts| == 0 ==> r == "--"
    ensures |parts| == 1 ==> r == [UpperChar(parts[0][0])]
    ensures |parts| >= 2 ==> r == [UpperChar(parts[0][0]), UpperChar(parts[|parts| - 1][0])]
  {
    if |parts| == 0 then "--"
    else ToUpper([parts[0][0]] + (if |parts| > 1 then [parts[|parts| - 1][0]] else []))
  }

  /** A one-word name, with any padding, gives one initial. */
  lemma InitialsOfOneWord(pre: string, w: string, post: string)
    requires AllWhitespace(pre) && AllWhitespace(post)
    requires w != [] && NoWhitespace(w)
    ensures Initials(Some(pre + w + post)) == [UpperChar(w[0])]
  {
    TrimStripsPadding(pre, w, post);
    WordsOfWord(w);
    assert Initials(Some(pre + w + post)) == InitialsOfParts([w]);
  }

  /**
   * A name with at least two words gives the initials of the first and the
   * last word, whatever lies between them.
   */
  lemma InitialsOfFirstAndLast(first: string, sep: char, middle: string, sep': char, last: string)
    requires first != [] && NoWhitespace(first)
    requires last != [] && NoWhitespace(last)
    requires IsWhitespace(sep) && IsWhitespace(sep')
    ensures Initials(Some(first + [sep] + middle + [sep'] + last)) == [UpperChar(first[0]), UpperChar(last[0])]
  {
    FirstAndLastTrimmed(first, sep, middle, sep', last);
    var parts := WordsOfFirstAndLast(first, sep, middle, sep', last);
    InitialsFromWords(first + [sep] + middle + [sep'] + last, parts);
  }

  /** A name that starts and ends with a word has no surrounding whitespace. */
  lemma FirstAndLastTrimmed(first: string, sep: char, middle: string, sep': char, last: string)
    requires first != [] && NoWhitespace(first)
    requires last != [] && NoWhitespace(last)
    ensures IsTrimmed(first + [sep] + middle + [sep'] + last)
  {
    var s := first + [sep] + middle + [sep'] + last;
    assert s[0] == first[0];
    assert s[|s| - 1] == last[|last| - 1];
  }

  /** A name without surrounding whitespace and with two or more words gets the initials of its first and last word. */
  lemma InitialsFromWords(s: string, parts: seq<string>)
    requires IsTrimmed(s)
    requires parts == Words(s) && |parts| >= 2
    ensures Initials(Some(s)) == [UpperChar(parts[0][0]), UpperChar(parts[|parts| - 1][0])]
  {
    TrimOfTrimmed(s);
    assert Initials(Some(s)) == InitialsOfParts(parts);
  }

  /** The words of `first sep middle sep' last` are `first`, the words of `middle`, then `last`. */
  lemma WordsOfFirstAndLast(first: string, sep: char, middle: string, sep': char, last: string)
    returns (parts: seq<string>)
    requires first != [] && NoWhitespace(first)
    requires last != [] && NoWhitespace(last)
    requires IsWhitespace(sep) && IsWhitespace(sep')
    ensures parts == Words(first + [sep] + middle + [sep'] + last)
    ensures |parts| >= 2 && parts[0] == first && parts[|parts| - 1] == last
  {
    var s := first + [sep] + middle + [sep'] + last;
    assert s == first + [sep] + (middle + [sep'] + last);
    WordsSplitAt(first, sep, middle + [sep'] + last);
    WordsSplitAt(middle, sep', last);
    WordsOfWord(first);
    WordsOfWord(last);
    parts := Words(s);
    assert parts == [first] + Words(middle) + [last];
  }

  const Int32Modulus: int := 0x1_0000_0000

  /** JavaScript's `x | 0`: the 32-bit two's-complement wrap of an integer. */
  function ToInt32(x: int): (r: int)
    ensures -0x8000_0000 <= r < 0x8000_0000
    ensures (x - r) % Int32Modulus == 0
  {
    var m := x % Int32Modulus;
    if m >= 0x8000_0000 then m - Int32Modulus else m
  }

  /** Two integers congruent modulo 2^32 wrap to the same 32-bit value. */
  lemma ToInt32Congruent(x: int, y: int)
    requires (x - y) % Int32Modulus == 0
    ensures ToInt32(x) == ToInt32(y)
  {
    var q := (x - y) / Int32Modulus;
    assert x - y == Int32Modulus * q;
    assert x % Int32Modulus == y % Int32Modulus;
  }

  /** One hash step keeps two congruent values congruent modulo 2^32. */
  lemma StepCongruent(x: int, y: int, c: int)
    requires (x - y) % Int32Modulus == 0
    ensures ((x * 31 + c) - (y * 31 + c)) % Int32Modulus == 0
  {
    var q := (x - y) / Int32Modulus;
    assert x - y == Int32Modulus * q;
    assert (x * 31 + c) - (y * 31 + c) == Int32Modulus * (q * 31);
  }

  /** The UTF-16 code `charCodeAt` returns, for characters of the Basic Multilingual Plane. */
  function CharCode(c: char): nat {
    c as int
  }

  /** The running value of `h` in `hashString` after the characters of `s`: `h = (h * 31 + code) | 0`. */
  function HashFold(s: string): (h: int)
    ensures -0x8000_0000 <= h < 0x8000_0000
  {
    if s == [] then 0 else ToInt32(HashFold(s[..|s| - 1]) * 31 + CharCode(s[|s| - 1]))
  }

  /** The exact polynomial hash: the sum of code(s[i]) * 31^(|s|-1-i), without wrapping. */
  function Polynomial(s: string): int {
    if s == [] then 0 else Polynomial(s[..|s| - 1]) * 31 + CharCode(s[|s| - 1])
  }

  /** The wrapped running hash is the 32-bit wrap of the exact polynomial hash. */
  lemma {:induction false} HashIsWrappedPolynomial(s: string)
    ensures HashFold(s) == ToInt32(Polynomial(s))
  {
    if s != [] {
      var p := s[..|s| - 1];
      var c := CharCode(s[|s| - 1]);
      HashIsWrappedPolynomial(p);
      var h := HashFold(p);
      StepCongruent(Polynomial(p), h, c);
      ToInt32Congruent(Polynomial(p) * 31 + c, h * 31 + c);
    }
  }

  /** `hashString`: `Math.abs` of the wrapped hash, a non-negative number at most 2^31. */
  function HashString(s: string): (h: nat)
    ensures h <= 0x8000_0000
    ensures h == ToInt32(Polynomial(s)) || h == -ToInt32(Polynomial(s))
  {
    HashIsWrappedPolynomial(s);
    var x := HashFold(s);
    if x < 0 then -x else x
  }

  /** The twelve avatar background colours. */
  const Palette: seq<string> := [
    "#22C55E", "#14B8A6", "#06B6D4", "#A3E635", "#F59E0B", "#F97316",
    "#3B82F6", "#6366F1", "#A855F7", "#EC4899", "#EF4444", "#10B981"
  ]

  /** `(candidate?.id ?? candidate?.fullName ?? "").toString()`: the key the colour is derived from. */
  function AvatarKey(candidate: Option<Object>): string {
    match candidate
    case None => ""
    case Some(c) =>
      if !IsNullish(Get(c, "id")) then ToJsString(c["id"]) else TextOf(Get(c, "fullName"))
  }

  /** The palette index `hashString(key) % palette.length`. */
  function AvatarIndex(key: string): (i: nat)
    ensures i < |Palette| == 12
  {
    HashString(key) % |Palette|
  }

  /** `avatarBg`: the palette colour for a candidate. */
  function AvatarBg(candidate: Option<Object>): (color: string)
    ensures color in Palette
    ensures color == Palette[AvatarIndex(AvatarKey(candidate))]
  {
    Palette[AvatarIndex(AvatarKey(candidate))]
  }

  /** The colour is stable per id: two candidates with the same present id share it, whatever else differs. */
  lemma AvatarBgStablePerId(a: Object, b: Object)
    requires "id" in a && "id" in b && a["id"] == b["id"] && a["id"] != Null
    ensures AvatarBg(Some(a)) == AvatarBg(Some(b))
  {
  }

  /** A number of stars. */
  type Stars = n: int | 0 <= n <= 5

  /** The text labels `rateToNumber` understands, with their number of stars. */
  const RateLabels: map<string, Stars> := map[
    "xuất sắc" := 5, "xuat sac" := 5,
    "tốt" := 4, "tot" := 4,
    "khá" := 3, "kha" := 3,
    "trung bình" := 2, "trung binh" := 2,
    "kém" := 1, "kem" := 1,
    "-" := 0, "—" := 0, "" := 0
  ]

  /**
   * `Number(rate)` when it is finite, rounded and clamped to stars; None when
   * it is NaN or infinite, so that the label lookup takes over. `Number(null)`
   * is 0 and `Number(undefined)` is NaN. A digit string of NumberOverflow or
   * more reads as `Infinity`.
   */
  function NumericStars(rate: Option<Value>): Option<Stars> {
    match rate
    case None => None
    case Some(Null) => Some(0)
    case Some(Bool(b)) => Some(if b then 1 else 0)
    case Some(Num(n)) => Some(Clamp(n, 0, 5))
    case Some(Str(s)) =>
      if Trim(s) == [] then Some(0)
      else if AllDigits(Trim(s)) && DigitsValue(Trim(s)) < NumberOverflow then Some(Clamp(DigitsValue(Trim(s)), 0, 5))
      else None
  }

  /** The stars of a normalised label, looking at the table's own entries only; an unknown label is 0. */
  function LabelStars(key: string): Stars {
    if key in RateLabels then RateLabels[key] else 0
  }

  /**
   * `rateToNumber` with the label table consulted for its own entries only:
   * a rating value read as 0 to 5 stars. Null or undefined is 0, a finite
   * number is rounded and clamped, and anything else is looked up by its
   * normalised text.
   */
  function RateToNumber(rate: Option<Value>): (stars: nat)
    ensures stars <= 5
    ensures IsNullish(rate) ==> stars == 0
    ensures rate.Some? && rate.value.Num? ==> stars == Clamp(rate.value.n, 0, 5)
  {
    if IsNullish(rate) then 0
    else
      match NumericStars(rate)
      case Some(n) => n
      case None => LabelStars(NormalizeText(rate))
  }

  /** What the lookup `map[s] ?? 0` yields: a number of stars, or a property every object inherits. */
  datatype Rating = Rated(stars: Stars) | Inherited(name: string)

  /**
   * The lower-case names of `Object.prototype`'s properties. A plain object
   * literal finds them too: `constructor` is the `Object` function and
   * `__proto__` is `Object.prototype`, neither of them nullish or a number.
   */
  const InheritedNames: set<string> := {"constructor", "__proto__"}

  /** `rateToNumber` as written, where `map[s]` also finds the inherited properties. */
  function RateToNumberAsWritten(rate: Option<Value>): (r: Rating)
    ensures IsNullish(rate) ==> r == Rated(0)
    ensures r.Inherited? ==> r.name in InheritedNames
  {
    if IsNullish(rate) then Rated(0)
    else
      match NumericStars(rate)
      case Some(n) => Rated(n)
      case None =>
        if NormalizeText(rate) in RateLabels then Rated(RateLabels[NormalizeText(rate)])
        else if NormalizeText(rate) in InheritedNames then Inherited(NormalizeText(rate))
        else Rated(0)
  }

  /**
   * The code as written and the own-entry lookup differ exactly on the
   * inherited names; everywhere else they give the same stars.
   */
  lemma RateAsWrittenDiffersOnlyOnInheritedNames(rate: Option<Value>)
    ensures RateToNumberAsWritten(rate).Inherited?
        <==> !IsNullish(rate) && NumericStars(rate).None? && NormalizeText(rate) in InheritedNames
    ensures RateToNumberAsWritten(rate).Rated? ==> RateToNumberAsWritten(rate).stars == RateToNumber(rate)
  {
    assert "constructor" !in RateLabels && "__proto__" !in RateLabels;
  }

  /**
   * An inherited name with any padding, such as "constructor" or " __proto__ ",
   * makes the code as written return that property instead of a number; the
   * own-entry lookup reads it as 0.
   */
  lemma InheritedNameReads(pre: string, name: string, post: string)
    requires AllWhitespace(pre) && AllWhitespace(post)
    requires name in InheritedNames
    ensures RateToNumberAsWritten(Some(Str(pre + name + post))) == Inherited(name)
    ensures RateToNumber(Some(Str(pre + name + post))) == 0
  {
    InheritedNamesArePlain(name);
    TrimStripsPadding(pre, name, post);
    NonNumericText(pre + name + post);
    NormalizeTextIgnoresPadding(pre, name, post);
    NormalizeTextOfNormal(name);
  }

  /** The inherited names are normalised text that does not start with a digit, and not labels of the table. */
  lemma InheritedNamesArePlain(name: string)
    requires name in InheritedNames
    ensures IsPlainLabel(name) && name !in RateLabels
  {
    if name == "constructor" {
      assert IsPlainLabel("constructor");
    } else {
      assert IsPlainLabel("__proto__");
    }
    assert "constructor" !in RateLabels && "__proto__" !in RateLabels;
  }

  /** Text whose trim starts with something other than a digit is not a finite number. */
  lemma NonNumericText(s: string)
    requires Trim(s) != [] && !IsDigit(Trim(s)[0])
    ensures NumericStars(Some(Str(s))).None?
  {
  }

  /** A digit string too long for a finite number fails `Number.isFinite`, is not a label, and reads as 0. */
  lemma RateOverflowingDigitsAreZero(s: string)
    requires Trim(s) != [] && AllDigits(Trim(s))
    requires DigitsValue(Trim(s)) >= NumberOverflow
    ensures RateToNumberAsWritten(Some(Str(s))) == Rated(0)
    ensures RateToNumber(Some(Str(s))) == 0
  {
    var t := Trim(s);
    assert NumericStars(Some(Str(s))).None?;
    DigitTextIsNoLabel(t);
    assert NormalizeText(Some(Str(s))) == t;
  }

  /** A digit string is its own normal form, and neither a label of the table nor an inherited name. */
  lemma DigitTextIsNoLabel(t: string)
    requires t != [] && AllDigits(t)
    ensures ToLower(t) == t && t !in RateLabels && t !in InheritedNames
  {
    assert IsDigit(t[0]);
    if t in RateLabels {
      LabelsAreNormal(t);
    }
    assert t != "constructor" && t != "__proto__" by {
      assert "constructor"[0] == 'c' && "__proto__"[0] == '_';
    }
  }

  /** Every known label, written as listed, reads as its number of stars. */
  lemma RateLabelsRead(name: string)
    requires name in RateLabels
    ensures RateToNumber(Some(Str(name))) == RateLabels[name]
  {
    if name == "" {
    } else {
      LabelsAreNormal(name);
      TrimOfTrimmed(name);
      LowerOfNoUpper(name);
    }
  }

  /** Non-empty, already normalised, and not starting with a digit. */
  predicate IsPlainLabel(s: string) {
    s != [] && IsTrimmed(s) && !IsDigit(s[0]) && NoUpper(s)
  }

  /** The keys of the label table, one by one. */
  lemma LabelNames(name: string)
    requires name in RateLabels
    ensures || name == "xuất sắc" || name == "xuat sac" || name == "tốt" || name == "tot"
            || name == "khá" || name == "kha" || name == "trung bình" || name == "trung binh"
            || name == "kém" || name == "kem" || name == "-" || name == "—" || name == ""
  {
  }

  /** The non-empty labels are already normalised text and do not start with a digit. */
  lemma LabelsAreNormal(name: string)
    requires name in RateLabels && name != ""
    ensures IsPlainLabel(name)
  {
    LabelNames(name);
    if name == "xuất sắc" { assert IsPlainLabel("xuất sắc"); }
    else if name == "xuat sac" { assert IsPlainLabel("xuat sac"); }
    else if name == "tốt" { assert IsPlainLabel("tốt"); }
    else if name == "tot" { assert IsPlainLabel("tot"); }
    else if name == "khá" { assert IsPlainLabel("khá"); }
    else if name == "kha" { assert IsPlainLabel("kha"); }
    else if name == "trung bình" { assert IsPlainLabel("trung bình"); }
    else if name == "trung binh" { assert IsPlainLabel("trung binh"); }
    else if name == "kém" { assert IsPlainLabel("kém"); }
    else if name == "kem" { assert IsPlainLabel("kem"); }
    else if name == "-" { assert IsPlainLabel("-"); }
    else { assert name == "—"; assert IsPlainLabel("—"); }
  }

  /**
   * A non-blank text with no digit in it is not a finite number (`Number()`
   * gives NaN or an infinity), so it is looked up as a label; when its normal
   * form is not a label, it reads as zero stars, and as written too unless
   * the normal form is an inherited name.
   */
  lemma RateUnknownLabelIsZero(s: string)
    requires !AllWhitespace(s) && forall i :: 0 <= i < |s| ==> !IsDigit(s[i])
    requires ToLower(Trim(s)) !in RateLabels
    ensures RateToNumber(Some(Str(s))) == 0
    ensures ToLower(Trim(s)) !in InheritedNames ==> RateToNumberAsWritten(Some(Str(s))) == Rated(0)
  {
    var t := Trim(s);
    assert t[0] == s[LeadingWhitespace(s)];
    assert !AllDigits(t);
  }
}
