/** The string handling the tracker relies on, with Python's semantics:
    `int()` on a decimal literal, `str.split` with an explicit separator,
    `str.replace` with an empty replacement, and `num_sorted`
    (src/util.py), which orders file names by the number their digits
    spell. */
module Text {
  import opened Wrappers
  import opened Seqs

  // ---------------------------------------------------------------------------
  // Decimal numbers

  predicate IsDigit(c: char)
  {
    '0' <= c <= '9'
  }

  predicate AllDigits(s: string)
  {
    forall i :: 0 <= i < |s| ==> IsDigit(s[i])
  }

  function DigitChar(n: nat): (c: char)
    requires n < 10
    ensures IsDigit(c)
  {
    (n + '0' as int) as char
  }

  /** The value of a string of decimal digits (0 for the empty string). */
  function ValueOf(ds: string): nat
    requires AllDigits(ds)
  {
    if ds == [] then 0
    else 10 * ValueOf(ds[..|ds| - 1]) + (ds[|ds| - 1] as int - '0' as int)
  }

  /** The decimal numeral of `n`, without leading zeros. */
  function ShowNat(n: nat): (s: string)
    ensures |s| > 0 && AllDigits(s)
  {
    if n < 10 then [DigitChar(n)] else ShowNat(n / 10) + [DigitChar(n % 10)]
  }

  /** Reading back a numeral gives the number. */
  lemma {:induction false} ValueOfShowNat(n: nat)
    ensures ValueOf(ShowNat(n)) == n
  {
    if n >= 10 {
      ValueOfShowNat(n / 10);
      var s := ShowNat(n);
      assert s[..|s| - 1] == ShowNat(n / 10);
    }
  }

  /** A numeral holds nothing but digits. */
  lemma NumeralLacks(n: nat, c: char)
    requires !IsDigit(c)
    ensures c !in ShowNat(n)
  {
    var s := ShowNat(n);
    forall k | 0 <= k < |s|
      ensures s[k] != c
    {
      assert IsDigit(s[k]);
    }
  }

  /** The digits after an optional sign. */
  function Unsigned(s: string): string
  {
    if |s| > 0 && (s[0] == '+' || s[0] == '-') then s[1..] else s
  }

  /** What `int(s)` accepts here: an optional sign and at least one digit. */
  predicate IsIntLiteral(s: string)
  {
    |Unsigned(s)| > 0 && AllDigits(Unsigned(s))
  }

  /** `int(s)`: ValueError unless `s` is a decimal literal. */
  function ParseInt(s: string): (r: Result<int>)
    ensures r.Ok? <==> IsIntLiteral(s)
    ensures r.Err? ==> r.error.ValueError?
    ensures r.Ok? && s[0] != '-' ==> r.value >= 0
  {
    var digits := Unsigned(s);
    if digits == [] || !AllDigits(digits) then Err(ValueError("invalid literal for int()"))
    else
      var v: int := ValueOf(digits);
      if s[0] == '-' then Ok(-v) else Ok(v)
  }

  /** `int(str(n))` and `int("-" + str(n))` round-trip. */
  lemma ParseShowNat(n: nat)
    ensures ParseInt(ShowNat(n)) == Ok(n)
    ensures ParseInt("-" + ShowNat(n)) == Ok(-(n as int))
  {
    ValueOfShowNat(n);
    assert ("-" + ShowNat(n))[1..] == ShowNat(n);
  }

  // ---------------------------------------------------------------------------
  // str.split and str.replace

  /** `s.split(c)`: the pieces between occurrences of `c`, empty pieces
      included; a string without `c` is one piece. */
  function Split(s: string, c: char): (r: seq<string>)
    ensures |r| >= 1
  {
    if s == [] then [""]
    else
      var t := Split(s[1..], c);
      if s[0] == c then [""] + t else [[s[0]] + t[0]] + t[1..]
  }

  /** No piece contains the separator. */
  lemma {:induction false} SplitPieces(s: string, c: char)
    ensures forall i :: 0 <= i < |Split(s, c)| ==> c !in Split(s, c)[i]
  {
    if s != [] {
      SplitPieces(s[1..], c);
    }
  }

  /** One step of `Split`, for a string given as its head and tail. */
  lemma SplitCons(x: char, t: string, c: char)
    ensures Split([x] + t, c) == if x == c then [""] + Split(t, c)
                                 else [[x] + Split(t, c)[0]] + Split(t, c)[1..]
  {
    assert ([x] + t)[1..] == t;
  }

  /** `c.join(ps)`. */
  function Join(ps: seq<string>, c: char): string
    requires |ps| >= 1
  {
    if |ps| == 1 then ps[0] else ps[0] + [c] + Join(ps[1..], c)
  }

  /** A prefix without the separator extends the first piece. */
  lemma {:induction false} SplitPrefix(a: string, b: string, c: char)
    requires c !in a
    ensures Split(a + b, c) == [a + Split(b, c)[0]] + Split(b, c)[1..]
  {
    var u := Split(b, c);
    if a != [] {
      SplitPrefix(a[1..], b, c);
      HeadTail(a, b);
      HeadTail(a, u[0]);
      SplitStep(a[0], a[1..] + b, c, a[1..] + u[0], u[1..]);
    } else {
      SplitWhole(a, b, u);
    }
  }

  /** A character other than the separator extends the first piece. */
  lemma SplitStep(x: char, t: string, c: char, p: string, rest: seq<string>)
    requires x != c && Split(t, c) == [p] + rest
    ensures Split([x] + t, c) == [[x] + p] + rest
  {
    SplitCons(x, t, c);
    assert Split(t, c)[1..] == rest;
  }

  lemma HeadTail(a: string, b: string)
    requires a != []
    ensures a + b == [a[0]] + (a[1..] + b)
  {
  }

  lemma SplitWhole(a: string, b: string, u: seq<string>)
    requires a == [] && |u| >= 1
    ensures u == [a + u[0]] + u[1..] && a + b == b
  {
    assert a + u[0] == u[0];
    assert u == [u[0]] + u[1..];
  }

  /** Splitting what `join` built gives back the pieces. */
  lemma {:induction false} SplitJoin(ps: seq<string>, c: char)
    requires |ps| >= 1
    requires forall i :: 0 <= i < |ps| ==> c !in ps[i]
    ensures Split(Join(ps, c), c) == ps
  {
    if |ps| == 1 {
      SplitPrefix(ps[0], "", c);
      assert ps[0] + "" == ps[0];
    } else {
      SplitJoin(ps[1..], c);
      var rest := Join(ps[1..], c);
      assert ps[0] + [c] + rest == ps[0] + ([c] + rest);
      SplitPrefix(ps[0], [c] + rest, c);
      assert ([c] + rest)[1..] == rest;
      assert ps[0] + "" == ps[0];
      assert ps == [ps[0]] + ps[1..];
    }
  }

  /** The last piece: `s.split(c)[-1]`. */
  function LastPiece(s: string, c: char): string
  {
    var ps := Split(s, c);
    ps[|ps| - 1]
  }

  /** The last piece holds no separator. */
  lemma LastPieceLacks(s: string, c: char)
    ensures c !in LastPiece(s, c)
  {
    SplitPieces(s, c);
  }

  /** The text after the last separator is the last piece. */
  lemma {:induction false} LastPieceAfter(a: string, b: string, c: char)
    requires c !in b
    ensures LastPiece(a + [c] + b, c) == b
    ensures |Split(a + [c] + b, c)| >= 2
  {
    if a == [] {
      assert a + [c] + b == [c] + b;
      LastPieceSeparated(b, c);
    } else {
      LastPieceAfter(a[1..], b, c);
      assert a + [c] + b == [a[0]] + (a[1..] + [c] + b);
      LastPieceCons(a[0], a[1..] + [c] + b, c);
    }
  }

  lemma LastPieceSeparated(b: string, c: char)
    requires c !in b
    ensures LastPiece([c] + b, c) == b && |Split([c] + b, c)| >= 2
  {
    SplitCons(c, b, c);
    SplitPrefix(b, "", c);
    assert b + "" == b;
  }

  /** A character in front keeps the last of two or more pieces. */
  lemma LastPieceCons(x: char, t: string, c: char)
    requires |Split(t, c)| >= 2
    ensures LastPiece([x] + t, c) == LastPiece(t, c) && |Split([x] + t, c)| >= 2
  {
    SplitCons(x, t, c);
  }

  /** `s.replace(pat, "")`: every occurrence of `pat`, found left to right
      without overlaps, removed. */
  function RemoveAll(s: string, pat: string): (r: string)
    requires pat != []
    ensures |r| <= |s|
    decreases |s|
  {
    if |s| < |pat| then s
    else if s[..|pat|] == pat then RemoveAll(s[|pat|..], pat)
    else [s[0]] + RemoveAll(s[1..], pat)
  }

  /** A string in which the pattern's first character never occurs loses
      exactly a trailing copy of the pattern. */
  lemma {:induction false} RemoveTrailing(a: string, pat: string)
    requires pat != [] && pat[0] !in a
    ensures RemoveAll(a + pat, pat) == a
  {
    var s := a + pat;
    if a == [] {
      assert s == pat && s[|pat|..] == [];
    } else {
      assert s[..|pat|][0] == a[0];
      assert s[1..] == a[1..] + pat;
      RemoveTrailing(a[1..], pat);
      assert [a[0]] + a[1..] == a;
    }
  }

  // ---------------------------------------------------------------------------
  // num_sorted

  /** The digits of a string, in order. */
  function Digits(s: string): (ds: string)
    ensures AllDigits(ds)
  {
    if s == [] then []
    else (if IsDigit(s[0]) then [s[0]] else []) + Digits(s[1..])
  }

  /** The sort key of `num_sorted`: the number spelled by all the digits of
      a string, in order, wherever they occur. */
  function NumKey(s: string): real
  {
    ValueOf(Digits(s)) as real
  }

  /** `num_sorted(strings)`: the strings ordered by the number their digits
      spell, stably (equal numbers keep their input order); `int("")`
      raises ValueError when a string has no digit at all. */
  function NumSorted(strings: seq<string>): (r: Result<seq<string>>)
    ensures r.Err? <==> exists s :: s in strings && Digits(s) == []
    ensures r.Err? ==> r.error.ValueError?
    ensures r.Ok? ==> multiset(r.value) == multiset(strings)
    ensures r.Ok? ==> SortedBy(r.value, NumKey)
  {
    if exists s :: s in strings && Digits(s) == [] then Err(ValueError("invalid literal for int() with base 10: ''"))
    else Ok(SortBy(strings, NumKey))
  }

  /** Equal keys keep their input order. */
  lemma NumSortedStable(strings: seq<string>, k: real)
    requires NumSorted(strings).Ok?
    ensures Filter(NumSorted(strings).value, KeyIs(NumKey, k)) == Filter(strings, KeyIs(NumKey, k))
  {
    SortByStable(strings, NumKey, k);
  }

  /** A name whose only digits are the numeral of `n` sorts under `n`: the
      key of `prefix + str(n) + suffix` is `n`. */
  lemma NumberedName(prefix: string, n: nat, suffix: string)
    requires forall i :: 0 <= i < |prefix| ==> !IsDigit(prefix[i])
    requires forall i :: 0 <= i < |suffix| ==> !IsDigit(suffix[i])
    ensures NumKey(prefix + ShowNat(n) + suffix) == n as real
  {
    EmbeddedDigits(prefix, ShowNat(n), suffix);
    ValueOfShowNat(n);
  }

  lemma EmbeddedDigits(prefix: string, num: string, suffix: string)
    requires forall i :: 0 <= i < |prefix| ==> !IsDigit(prefix[i])
    requires AllDigits(num)
    requires forall i :: 0 <= i < |suffix| ==> !IsDigit(suffix[i])
    ensures Digits(prefix + num + suffix) == num
  {
    DigitsConcat(prefix + num, suffix);
    DigitsConcat(prefix, num);
    NoDigits(prefix);
    NoDigits(suffix);
    OnlyDigits(num);
    assert [] + num + [] == num;
  }

  lemma {:induction false} DigitsConcat(a: string, b: string)
    ensures Digits(a + b) == Digits(a) + Digits(b)
  {
    if a == [] {
      assert a + b == b;
    } else {
      assert a + b == [a[0]] + (a[1..] + b);
      DigitsCons(a[0], a[1..] + b);
      DigitsConcat(a[1..], b);
      DigitsCons(a[0], a[1..]);
      assert [a[0]] + a[1..] == a;
    }
  }

  lemma DigitsCons(x: char, t: string)
    ensures Digits([x] + t) == (if IsDigit(x) then [x] else []) + Digits(t)
  {
    assert ([x] + t)[1..] == t;
  }

  lemma {:induction false} NoDigits(s: string)
    requires forall i :: 0 <= i < |s| ==> !IsDigit(s[i])
    ensures Digits(s) == []
  {
    if s != [] {
      NoDigits(s[1..]);
    }
  }

  lemma {:induction false} OnlyDigits(s: string)
    requires AllDigits(s)
    ensures Digits(s) == s
  {
    if s != [] {
      OnlyDigits(s[1..]);
      assert s == [s[0]] + s[1..];
    }
  }
}
