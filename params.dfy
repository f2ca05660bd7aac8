/** `RecipeViewSet._params_to_ints`: a comma-separated query parameter becomes a list of ints,
    by Python's `str.split(",")` followed by `int(...)` on every piece. */
module Params {
  import opened Records

  // ---------------------------------------------------------------------------
  // str.split(",")
  // ---------------------------------------------------------------------------

  /** The pieces of `s` between commas, in order; an empty string is one empty piece. */
  function Split(s: string): (r: seq<string>)
    ensures |r| >= 1
  {
    if s == [] then [""]
    else if s[0] == ',' then [""] + Split(s[1..])
    else
      var rest := Split(s[1..]);
      [[s[0]] + rest[0]] + rest[1..]
  }

  /** `",".join(pieces)`, the inverse of Split. */
  function Join(pieces: seq<string>): string
    requires |pieces| >= 1
  {
    if |pieces| == 1 then pieces[0] else pieces[0] + "," + Join(pieces[1..])
  }

  function CommaCount(s: string): nat
  {
    if s == [] then 0 else (if s[0] == ',' then 1 else 0) + CommaCount(s[1..])
  }

  /** Splitting yields one piece more than there are commas. */
  lemma {:induction false} SplitCount(s: string)
    ensures |Split(s)| == CommaCount(s) + 1
  {
    if s != [] {
      SplitCount(s[1..]);
    }
  }

  /** No piece contains the separator. */
  lemma {:induction false} SplitPiecesCommaFree(s: string)
    ensures forall p :: p in Split(s) ==> ',' !in p
  {
    if s != [] {
      SplitPiecesCommaFree(s[1..]);
      if s[0] != ',' {
        var rest := Split(s[1..]);
        assert ',' !in rest[0];
        assert forall p :: p in rest[1..] ==> p in rest;
      }
    }
  }

  /** Joining the pieces gives back the original string. */
  lemma {:induction false} JoinSplit(s: string)
    ensures Join(Split(s)) == s
  {
    if s != [] {
      JoinSplit(s[1..]);
      var rest := Split(s[1..]);
      if s[0] != ',' && |rest| > 1 {
        assert rest[1..][1..] == rest[2..];
        assert Join(rest) == rest[0] + "," + Join(rest[1..]);
        assert Join(Split(s)) == [s[0]] + rest[0] + "," + Join(rest[1..]);
      }
    }
  }

  /** Splitting a comma-free prefix glued to `rest` extends the first piece of `rest`. */
  lemma {:induction false} SplitCommaFreePrefix(a: string, rest: string)
    requires ',' !in a
    ensures Split(a + rest) == [a + Split(rest)[0]] + Split(rest)[1..]
  {
    if a != [] {
      SplitCommaFreePrefix(a[1..], rest);
      assert (a + rest)[1..] == a[1..] + rest;
      assert [a[0]] + (a[1..] + Split(rest)[0]) == a + Split(rest)[0];
    } else {
      assert a + rest == rest;
      assert a + Split(rest)[0] == Split(rest)[0];
      assert Split(rest) == [Split(rest)[0]] + Split(rest)[1..];
    }
  }

  /** Splitting comma-free pieces joined by commas gives back the pieces. */
  lemma {:induction false} SplitJoin(pieces: seq<string>)
    requires |pieces| >= 1
    requires forall p :: p in pieces ==> ',' !in p
    ensures Split(Join(pieces)) == pieces
  {
    if |pieces| == 1 {
      SplitCommaFreePrefix(pieces[0], "");
      assert pieces[0] + "" == pieces[0];
    } else {
      var tail := Join(pieces[1..]);
      SplitJoin(pieces[1..]);
      assert pieces[0] + "," + tail == pieces[0] + ("," + tail);
      SplitCommaFreePrefix(pieces[0], "," + tail);
      assert ("," + tail)[1..] == tail;
      assert Split("," + tail) == [""] + pieces[1..];
      assert pieces[0] + "" == pieces[0];
    }
  }

  /** Two adjacent commas at position j put an empty piece after the first piece. */
  lemma {:induction false} AdjacentCommasSplitEmpty(s: string, j: nat)
    requires j + 1 < |s| && s[j] == ',' && s[j + 1] == ','
    ensures exists k :: 1 <= k < |Split(s)| && Split(s)[k] == ""
  {
    if j == 0 {
      assert s[1..][0] == ',';
      assert Split(s)[1] == Split(s[1..])[0] == "";
    } else {
      AdjacentCommasSplitEmpty(s[1..], j - 1);
      var rest := Split(s[1..]);
      var k :| 1 <= k < |rest| && rest[k] == "";
      if s[0] == ',' {
        assert Split(s)[k + 1] == "";
      } else {
        assert Split(s)[k] == rest[k];
      }
    }
  }

  // ---------------------------------------------------------------------------
  // int(piece): Python's base-10 integer literal
  // ---------------------------------------------------------------------------

  /** The characters Python's `str.isspace` accepts, which `str.strip()` removes from both
      ends. */
  predicate IsSpace(c: char)
  {
    var n := c as int;
    n == 32 || 9 <= n <= 13 || 28 <= n <= 31 || n == 0x85 || n == 0xA0 || n == 0x1680
    || 0x2000 <= n <= 0x200A || n == 0x2028 || n == 0x2029 || n == 0x202F || n == 0x205F
    || n == 0x3000
  }

  /** The characters `int()` strips from both ends of its argument. ASCII characters are
      looked up in C's `isspace` table (tab, line feed, vertical tab, form feed, carriage
      return, space), every other character by `str.isspace`; so the ASCII separators
      U+001C to U+001F, which `str.isspace` accepts, are not stripped. */
  predicate IsIntSpace(c: char)
  {
    IsSpace(c) && !(28 <= c as int <= 31)
  }

  predicate IsDigit(c: char)
  {
    '0' <= c <= '9'
  }

  /** `s` without the leading characters `space` holds of. */
  function TrimStart(s: string, space: char -> bool): string
  {
    if |s| > 0 && space(s[0]) then TrimStart(s[1..], space) else s
  }

  /** `s` without the trailing characters `space` holds of. */
  function TrimEnd(s: string, space: char -> bool): string
  {
    if |s| > 0 && space(s[|s| - 1]) then TrimEnd(s[..|s| - 1], space) else s
  }

  /** `str.strip()`: whitespace removed from both ends. */
  function Strip(s: string): string
  {
    TrimEnd(TrimStart(s, IsSpace), IsSpace)
  }

  /** The text `int()` parses: its argument with `int()`'s whitespace removed from both ends. */
  function StripInt(s: string): string
  {
    TrimEnd(TrimStart(s, IsIntSpace), IsIntSpace)
  }

  /** Every character trimming removes is one `space` holds of. */
  lemma {:induction false} TrimStartKeeps(s: string, space: char -> bool)
    ensures forall c :: c in s ==> c in TrimStart(s, space) || space(c)
  {
    if |s| > 0 && space(s[0]) {
      TrimStartKeeps(s[1..], space);
      assert forall c :: c in s ==> c == s[0] || c in s[1..];
    }
  }

  lemma {:induction false} TrimEndKeeps(s: string, space: char -> bool)
    ensures forall c :: c in s ==> c in TrimEnd(s, space) || space(c)
  {
    if |s| > 0 && space(s[|s| - 1]) {
      TrimEndKeeps(s[..|s| - 1], space);
      assert forall c :: c in s ==> c == s[|s| - 1] || c in s[..|s| - 1];
    }
  }

  /** Trimming the start drops the longest prefix of characters `space` holds of. */
  lemma {:induction false} TrimStartSlice(s: string, space: char -> bool) returns (i: nat)
    ensures i <= |s| && TrimStart(s, space) == s[i..]
    ensures forall k :: 0 <= k < i ==> space(s[k])
    ensures TrimStart(s, space) != [] ==> !space(TrimStart(s, space)[0])
  {
    if |s| > 0 && space(s[0]) {
      var i' := TrimStartSlice(s[1..], space);
      i := i' + 1;
      assert s[1..][i'..] == s[i..];
      forall k | 0 < k < i
        ensures space(s[k])
      {
        assert s[k] == s[1..][k - 1];
      }
    } else {
      i := 0;
    }
  }

  /** Trimming the end drops the longest suffix of characters `space` holds of. */
  lemma {:induction false} TrimEndSlice(s: string, space: char -> bool) returns (j: nat)
    ensures j <= |s| && TrimEnd(s, space) == s[..j]
    ensures forall k :: j <= k < |s| ==> space(s[k])
    ensures TrimEnd(s, space) != [] ==> !space(TrimEnd(s, space)[|TrimEnd(s, space)| - 1])
  {
    if |s| > 0 && space(s[|s| - 1]) {
      var t := s[..|s| - 1];
      j := TrimEndSlice(t, space);
      assert t[..j] == s[..j];
      forall k | j <= k < |s| - 1
        ensures space(s[k])
      {
        assert s[k] == t[k];
      }
    } else {
      j := |s|;
    }
  }

  /** `str.strip()` keeps a slice of its argument: everything cut off on either side is
      whitespace, and what is kept neither starts nor ends with whitespace. */
  lemma StripIsSlice(s: string)
    ensures exists i, j :: 0 <= i <= j <= |s| && Strip(s) == s[i..j]
              && (forall k :: 0 <= k < i || j <= k < |s| ==> IsSpace(s[k]))
    ensures Strip(s) != "" ==> !IsSpace(Strip(s)[0]) && !IsSpace(Strip(s)[|Strip(s)| - 1])
  {
    var i := TrimStartSlice(s, IsSpace);
    var t := s[i..];
    var j' := TrimEndSlice(t, IsSpace);
    var j := i + j';
    assert Strip(s) == t[..j'] == s[i..j];
    forall k | j <= k < |s|
      ensures IsSpace(s[k])
    {
      assert s[k] == t[k - i];
    }
    if Strip(s) != "" {
      assert Strip(s)[0] == t[0];
    }
  }

  /** ASCII digits, where a single underscore may stand between two digits ("1_000"). */
  predicate IsDigitRun(d: string)
  {
    && |d| > 0
    && IsDigit(d[0])
    && IsDigit(d[|d| - 1])
    && forall i :: 0 <= i < |d| ==>
         IsDigit(d[i]) || (d[i] == '_' && i + 1 < |d| && IsDigit(d[i + 1]))
  }

  lemma DigitRunChars(d: string)
    requires IsDigitRun(d)
    ensures forall c :: c in d ==> IsDigit(c) || c == '_'
  {
    forall c | c in d
      ensures IsDigit(c) || c == '_'
    {
      var i :| 0 <= i < |d| && d[i] == c;
      assert IsDigit(d[i]) || (d[i] == '_' && i + 1 < |d| && IsDigit(d[i + 1]));
    }
  }

  /** The number the digits of `d` spell, underscores skipped. */
  function DigitsValue(d: string): nat
  {
    if d == [] then 0
    else
      var c := d[|d| - 1];
      var high := DigitsValue(d[..|d| - 1]);
      if IsDigit(c) then high * 10 + (c as int - '0' as int) else high
  }

  /** The number of digits in `d`, underscores not counted. */
  function DigitCount(d: string): nat
  {
    if d == [] then 0
    else DigitCount(d[..|d| - 1]) + (if IsDigit(d[|d| - 1]) then 1 else 0)
  }

  /** The most digits `int()` converts from a decimal string: CPython's default limit
      (`sys.get_int_max_str_digits()`), which `str()` of an integer obeys too. */
  const MaxDigits: nat := 4300

  /** A digit run `int()` converts: well formed and within the digit limit. */
  predicate IsLiteral(d: string)
  {
    IsDigitRun(d) && DigitCount(d) <= MaxDigits
  }

  /** `int(piece)`: None where Python raises ValueError. A piece that parses holds nothing but
      digits, underscores, signs and the whitespace `int()` strips. */
  function ParseInt(piece: string): (r: Option<int>)
    ensures r.Some? ==>
              forall c :: c in piece ==> IsDigit(c) || c == '_' || c == '+' || c == '-' || IsIntSpace(c)
  {
    TrimStartKeeps(piece, IsIntSpace);
    TrimEndKeeps(TrimStart(piece, IsIntSpace), IsIntSpace);
    var t := StripInt(piece);
    assert forall c :: c in t ==> c == t[0] || c in t[1..];
    if |t| > 0 && (t[0] == '+' || t[0] == '-') then
      if IsLiteral(t[1..]) then
        DigitRunChars(t[1..]);
        var v: int := DigitsValue(t[1..]);
        Some(if t[0] == '-' then -v else v)
      else None
    else if IsLiteral(t) then DigitRunChars(t); Some(DigitsValue(t))
    else None
  }

  /** `str(n)` for a natural number: its shortest decimal digits. */
  function FormatNat(n: nat): string
  {
    var last := [(48 + n % 10) as char];
    if n < 10 then last else FormatNat(n / 10) + last
  }

  /** `str(i)`: a minus sign before the digits of a negative number. */
  function FormatInt(i: int): string
  {
    if i < 0 then "-" + FormatNat(-i) else FormatNat(i)
  }

  lemma {:induction false} FormatNatDigits(n: nat)
    ensures |FormatNat(n)| > 0
    ensures forall k :: 0 <= k < |FormatNat(n)| ==> IsDigit(FormatNat(n)[k])
    ensures DigitsValue(FormatNat(n)) == n
    ensures DigitCount(FormatNat(n)) == |FormatNat(n)|
  {
    var s := FormatNat(n);
    if n >= 10 {
      FormatNatDigits(n / 10);
      assert s[..|s| - 1] == FormatNat(n / 10);
    } else {
      assert s[..|s| - 1] == [];
    }
  }

  /** `str(i)` succeeds: the decimal spelling of `i` is within the digit limit. */
  predicate WithinDigitLimit(i: int)
  {
    |FormatNat(if i < 0 then -i else i)| <= MaxDigits
  }

  /** `int(str(i)) == i` for every integer `str` can spell. */
  lemma ParseFormat(i: int)
    requires WithinDigitLimit(i)
    ensures ParseInt(FormatInt(i)) == Some(i)
  {
    var s := FormatInt(i);
    var digits := if i < 0 then -i else i;
    FormatNatDigits(digits);
    var d := FormatNat(digits);
    assert !IsIntSpace(s[0]) && !IsIntSpace(s[|s| - 1]);
    assert TrimStart(s, IsIntSpace) == s;
    assert StripInt(s) == s;
    if i < 0 {
      assert s[1..] == d;
    }
    assert IsLiteral(d);
  }

  /** A digit string has as many digits as characters. */
  lemma {:induction false} AllDigitsCount(d: string)
    requires forall k :: 0 <= k < |d| ==> IsDigit(d[k])
    ensures DigitCount(d) == |d|
  {
    if d != [] {
      AllDigitsCount(d[..|d| - 1]);
    }
  }

  /** More than 4300 digits make `int()` raise, however well formed they are. */
  lemma TooManyDigitsRejected(d: string)
    requires forall k :: 0 <= k < |d| ==> IsDigit(d[k])
    requires |d| > MaxDigits
    ensures ParseInt(d).None?
  {
    AllDigitsCount(d);
    assert TrimStart(d, IsIntSpace) == d;
    assert StripInt(d) == d;
  }

  /** `int()` does not strip the ASCII separator U+001C, which `str.strip()` does strip. */
  lemma SeparatorNotStripped()
    ensures ParseInt("\U{1C}1").None?
    ensures Strip("\U{1C}1") == "1"
  {
    var s := "\U{1C}1";
    assert TrimStart(s, IsIntSpace) == s;
    assert StripInt(s) == s;
    assert TrimStart(s, IsSpace) == TrimStart(s[1..], IsSpace) == "1";
  }

  /** Every formatted integer is free of commas. */
  lemma FormatIntCommaFree(i: int)
    ensures ',' !in FormatInt(i)
  {
    FormatNatDigits(if i < 0 then -i else i);
  }

  // ---------------------------------------------------------------------------
  // The whole parameter: every comma-separated piece converted in turn
  // ---------------------------------------------------------------------------

  /** The comprehension over the pieces: the first piece `int()` rejects is reported. */
  function ParseAll(pieces: seq<string>): (r: Result<seq<int>, string>)
    ensures r.Ok? <==> forall k :: 0 <= k < |pieces| ==> ParseInt(pieces[k]).Some?
    ensures r.Ok? ==> |r.value| == |pieces|
    ensures r.Ok? ==> forall k :: 0 <= k < |pieces| ==> ParseInt(pieces[k]) == Some(r.value[k])
    ensures r.Err? ==> r.error in pieces && ParseInt(r.error).None?
  {
    if pieces == [] then Ok([])
    else
      match ParseInt(pieces[0])
      case None => Err(pieces[0])
      case Some(v) =>
        match ParseAll(pieces[1..])
        case Err(e) => Err(e)
        case Ok(vs) => Ok([v] + vs)
  }

  /** `_params_to_ints`: Ok with one int per comma-separated piece, in order, or Err with a
      piece that is not an integer literal. */
  function ParamsToInts(s: string): (r: Result<seq<int>, string>)
    ensures r.Ok? <==> forall p :: p in Split(s) ==> ParseInt(p).Some?
    ensures r.Ok? ==> |r.value| == |Split(s)| == CommaCount(s) + 1
    ensures r.Ok? ==> forall k :: 0 <= k < |r.value| ==> ParseInt(Split(s)[k]) == Some(r.value[k])
    ensures r.Err? ==> r.error in Split(s) && ParseInt(r.error).None?
  {
    SplitCount(s);
    ParseAll(Split(s))
  }

  /** The pieces `str(xs[0]), str(xs[1]), ...`. */
  function Formatted(xs: seq<int>): (r: seq<string>)
    ensures |r| == |xs|
  {
    seq(|xs|, k requires 0 <= k < |xs| => FormatInt(xs[k]))
  }

  /** The formatted pieces parse back to the integers they came from. */
  lemma {:induction false} ParseAllFormatted(xs: seq<int>)
    requires forall k :: 0 <= k < |xs| ==> WithinDigitLimit(xs[k])
    ensures ParseAll(Formatted(xs)) == Ok(xs)
  {
    if xs != [] {
      var pieces := Formatted(xs);
      assert WithinDigitLimit(xs[0]);
      ParseFormat(xs[0]);
      assert pieces[0] == FormatInt(xs[0]);
      ParseAllFormatted(xs[1..]);
      assert pieces[1..] == Formatted(xs[1..]);
      ParseAllCons(pieces, xs[0], xs[1..]);
      assert [xs[0]] + xs[1..] == xs;
    }
  }

  /** A first piece that parses, before pieces that all parse, gives one more value. */
  lemma ParseAllCons(pieces: seq<string>, v: int, vs: seq<int>)
    requires |pieces| > 0 && ParseInt(pieces[0]) == Some(v) && ParseAll(pieces[1..]) == Ok(vs)
    ensures ParseAll(pieces) == Ok([v] + vs)
  {
  }

  /** Round trip: a non-empty list of ints, each of which `str` can spell, joined with ","
      parses back to that list, in order. */
  lemma ParamsRoundTrip(xs: seq<int>)
    requires |xs| >= 1
    requires forall k :: 0 <= k < |xs| ==> WithinDigitLimit(xs[k])
    ensures ParamsToInts(Join(Formatted(xs))) == Ok(xs)
  {
    var pieces := Formatted(xs);
    forall p | p in pieces
      ensures ',' !in p
    {
      var k :| 0 <= k < |pieces| && pieces[k] == p;
      FormatIntCommaFree(xs[k]);
    }
    SplitJoin(pieces);
    ParseAllFormatted(xs);
  }

  /** A non-empty list of ints joined with "," is a non-empty parameter. */
  lemma JoinFormattedNonEmpty(xs: seq<int>)
    requires |xs| >= 1
    ensures Join(Formatted(xs)) != ""
  {
    FormatNatDigits(if xs[0] < 0 then -xs[0] else xs[0]);
    var pieces := Formatted(xs);
    assert pieces[0] == FormatInt(xs[0]) && |pieces[0]| > 0;
    if |pieces| > 1 {
      assert Join(pieces) == pieces[0] + "," + Join(pieces[1..]);
    }
  }

  /** An empty piece, as between the commas of "1,,2", makes the whole parameter fail. */
  lemma EmptyPieceRejected(s: string, j: nat)
    requires j + 1 < |s| && s[j] == ',' && s[j + 1] == ','
    ensures ParamsToInts(s).Err?
  {
    AdjacentCommasSplitEmpty(s, j);
    var k :| 1 <= k < |Split(s)| && Split(s)[k] == "";
    assert StripInt("") == "";
    assert ParseInt(Split(s)[k]).None?;
  }
}
