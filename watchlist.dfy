/** The list of watched release IDs, read once at start-up from the
    comma-separated ALBUMS_TO_WATCH setting (check.js:12-14), and the spelling
    of an ID as a key of the persisted state. */
module WatchList {
  import opened Wrappers

  /** What `Number(piece)` gives for one trimmed piece of the setting: a
      non-negative integer for the empty string and for strings of decimal
      digits, NaN for everything else this model covers. The integer is
      exact; JavaScript's double agrees with it below 2^53. */
  datatype ReleaseId = Num(n: nat) | NaN

  const Separator: char := ','

  // ---------------------------------------------------------------------
  // String.prototype.trim

  /** ECMAScript WhiteSpace and LineTerminator code points: the characters
      that `trim` removes from both ends of a string. Neither a digit nor
      the separator is one of them. */
  predicate IsTrimmable(c: char)
    ensures IsTrimmable(c) ==> !IsDigit(c) && c != Separator
  {
    c == '\t' || c == '\n' || c == '\U{000B}' || c == '\U{000C}' || c == '\r'
    || c == ' ' || c == '\U{00A0}' || c == '\U{1680}'
    || ('\U{2000}' <= c <= '\U{200A}')
    || c == '\U{2028}' || c == '\U{2029}' || c == '\U{202F}' || c == '\U{205F}'
    || c == '\U{3000}' || c == '\U{FEFF}'
  }

  predicate AllTrimmable(s: string) {
    forall k :: 0 <= k < |s| ==> IsTrimmable(s[k])
  }

  /** The first position at or after `i` that does not hold whitespace
      (or the end of `s`). */
  function SkipLeading(s: string, i: nat): (j: nat)
    requires i <= |s|
    ensures i <= j <= |s|
    ensures forall k :: i <= k < j ==> IsTrimmable(s[k])
    ensures j < |s| ==> !IsTrimmable(s[j])
    decreases |s| - i
  {
    if i < |s| && IsTrimmable(s[i]) then SkipLeading(s, i + 1) else i
  }

  /** The end of `s[lo..j]` once its trailing whitespace is dropped. */
  function SkipTrailing(s: string, lo: nat, j: nat): (e: nat)
    requires lo <= j <= |s|
    ensures lo <= e <= j
    ensures forall k :: e <= k < j ==> IsTrimmable(s[k])
    ensures lo < e ==> !IsTrimmable(s[e - 1])
    decreases j
  {
    if lo < j && IsTrimmable(s[j - 1]) then SkipTrailing(s, lo, j - 1) else j
  }

  /** `r` is the stretch of `s` that starts at offset `i`, with whitespace
      only before and after it. */
  predicate PaddedAt(s: string, r: string, i: int) {
    0 <= i <= i + |r| <= |s| && r == s[i..i + |r|]
    && (forall k :: 0 <= k < i ==> IsTrimmable(s[k]))
    && (forall k :: i + |r| <= k < |s| ==> IsTrimmable(s[k]))
  }

  /** `s.trim()`: `s` is the result surrounded by whitespace only, and the
      result neither starts nor ends with whitespace. */
  function Trim(s: string): (r: string)
    ensures exists i :: PaddedAt(s, r, i)
    ensures r != [] ==> !IsTrimmable(r[0]) && !IsTrimmable(r[|r| - 1])
  {
    var i := SkipLeading(s, 0);
    var e := SkipTrailing(s, i, |s|);
    assert PaddedAt(s, s[i..e], i);
    s[i..e]
  }

  lemma {:induction false} SkipLeadingStops(s: string, i: nat, j: nat)
    requires i <= j <= |s|
    requires forall k :: i <= k < j ==> IsTrimmable(s[k])
    requires j < |s| ==> !IsTrimmable(s[j])
    ensures SkipLeading(s, i) == j
    decreases j - i
  {
    if i < j {
      SkipLeadingStops(s, i + 1, j);
    }
  }

  lemma {:induction false} SkipTrailingStops(s: string, lo: nat, e: nat, j: nat)
    requires lo <= e <= j <= |s|
    requires forall k :: e <= k < j ==> IsTrimmable(s[k])
    requires lo < e ==> !IsTrimmable(s[e - 1])
    ensures SkipTrailing(s, lo, j) == e
    decreases j
  {
    if e < j {
      SkipTrailingStops(s, lo, e, j - 1);
    }
  }

  /** Trimming is determined by its characterisation: whatever whitespace
      surrounds a string that neither starts nor ends with whitespace is
      exactly what `trim` removes. */
  lemma TrimPadded(lead: string, t: string, trail: string)
    requires AllTrimmable(lead) && AllTrimmable(trail)
    requires t != [] ==> !IsTrimmable(t[0]) && !IsTrimmable(t[|t| - 1])
    ensures Trim(lead + t + trail) == t
  {
    var s := lead + t + trail;
    var a, b := |lead|, |lead| + |t|;
    assert forall k :: 0 <= k < a ==> s[k] == lead[k];
    assert forall k :: b <= k < |s| ==> s[k] == trail[k - b];
    if t == [] {
      SkipLeadingStops(s, 0, |s|);
      SkipTrailingStops(s, |s|, |s|, |s|);
    } else {
      assert s[a] == t[0] && s[b - 1] == t[|t| - 1];
      SkipLeadingStops(s, 0, a);
      SkipTrailingStops(s, a, b, |s|);
      assert s[a..b] == t;
    }
  }

  /** A string of digits has no whitespace to trim. */
  lemma {:induction false} DigitsTrimmed(d: string)
    requires AllDigits(d)
    ensures Trim(d) == d
  {
    if d != [] {
      assert IsDigit(d[0]) && IsDigit(d[|d| - 1]);
    }
    SkipLeadingStops(d, 0, 0);
    SkipTrailingStops(d, 0, |d|, |d|);
    assert d[0..|d|] == d;
  }

  // ---------------------------------------------------------------------
  // String.prototype.split(",") and its inverse

  function CountOf(c: char, s: string): nat {
    if s == [] then 0 else (if s[0] == c then 1 else 0) + CountOf(c, s[1..])
  }

  /** `s.split(",")`: one piece more than there are commas in `s`, none of
      the pieces containing a comma. */
  function Split(s: string): (pieces: seq<string>)
    ensures |pieces| == CountOf(Separator, s) + 1
    ensures forall p :: p in pieces ==> Separator !in p
  {
    if s == [] then [[]]
    else if s[0] == Separator then [[]] + Split(s[1..])
    else
      var rest := Split(s[1..]);
      [[s[0]] + rest[0]] + rest[1..]
  }

  /** `pieces.join(",")`. */
  function Join(pieces: seq<string>): string {
    if |pieces| == 0 then []
    else if |pieces| == 1 then pieces[0]
    else pieces[0] + [Separator] + Join(pieces[1..])
  }

  lemma {:induction false} JoinSplit(s: string)
    ensures Join(Split(s)) == s
  {
    if s == [] {
    } else if s[0] == Separator {
      JoinSplit(s[1..]);
      assert Split(s)[1..] == Split(s[1..]);
    } else {
      JoinSplit(s[1..]);
      var rest := Split(s[1..]);
      if |rest| > 1 {
        assert Split(s)[1..] == rest[1..];
        assert Join(rest) == rest[0] + [Separator] + Join(rest[1..]);
      }
    }
  }

  lemma {:induction false} SplitPiece(p: string, t: string)
    requires Separator !in p
    ensures Split(p) == [p]
    ensures Split(p + [Separator] + t) == [p] + Split(t)
  {
    if p != [] {
      SplitPiece(p[1..], t);
      assert p + [Separator] + t == [p[0]] + (p[1..] + [Separator] + t);
      assert [p[0]] + p[1..] == p;
    } else {
      assert p + [Separator] + t == [Separator] + t;
    }
  }

  lemma {:induction false} SplitJoin(pieces: seq<string>)
    requires |pieces| >= 1
    requires forall p :: p in pieces ==> Separator !in p
    ensures Split(Join(pieces)) == pieces
  {
    if |pieces| == 1 {
      SplitPiece(pieces[0], []);
    } else {
      SplitJoin(pieces[1..]);
      SplitPiece(pieces[0], Join(pieces[1..]));
      assert [pieces[0]] + pieces[1..] == pieces;
    }
  }

  // ---------------------------------------------------------------------
  // Number(piece) on decimal digit strings, and the decimal spelling back

  predicate IsDigit(c: char) { '0' <= c <= '9' }

  predicate AllDigits(s: string) {
    forall k :: 0 <= k < |s| ==> IsDigit(s[k])
  }

  function DecimalValue(s: string): nat
    requires AllDigits(s)
  {
    if s == [] then 0
    else DecimalValue(s[..|s| - 1]) * 10 + ((s[|s| - 1] as int) - ('0' as int))
  }

  /** `Number(piece)` for an already trimmed piece: the empty string is 0,
      a string of decimal digits its value, anything else NaN. */
  function ToNumber(s: string): (id: ReleaseId)
    ensures id.Num? <==> AllDigits(s)
    ensures id.Num? ==> id.n == DecimalValue(s)
    ensures s == [] ==> id == Num(0)
  {
    if AllDigits(s) then Num(DecimalValue(s)) else NaN
  }

  /** The canonical decimal spelling of `n`, as `String(n)` gives it. */
  function Decimal(n: nat): (s: string)
    ensures s != [] && AllDigits(s)
    ensures s[0] == '0' ==> n == 0
  {
    var d := ['0' + ((n % 10) as char)];
    if n < 10 then d else Decimal(n / 10) + d
  }

  lemma {:induction false} NumberOfDecimal(n: nat)
    ensures ToNumber(Decimal(n)) == Num(n)
  {
    var s := Decimal(n);
    assert (s[|s| - 1] as int) - ('0' as int) == n % 10;
    if n >= 10 {
      NumberOfDecimal(n / 10);
      assert s[..|s| - 1] == Decimal(n / 10);
      assert DecimalValue(s) == (n / 10) * 10 + n % 10;
    } else {
      assert s[..|s| - 1] == [];
      assert DecimalValue(s) == DecimalValue([]) * 10 + n % 10;
    }
  }

  /** The key under which an ID's counter is stored: JavaScript's
      conversion of the number to a property name. A number's key is a
      string of digits; NaN's is not. */
  function KeyOf(id: ReleaseId): string {
    match id
    case Num(n) => Decimal(n)
    case NaN => "NaN"
  }

  /** A key is never empty, and it is all digits exactly when the ID is a
      number, so NaN's key "NaN" is never a number's key. */
  lemma KeyShape(id: ReleaseId)
    ensures KeyOf(id) != []
    ensures AllDigits(KeyOf(id)) <==> id.Num?
  {
    if id.NaN? {
      assert !IsDigit(KeyOf(id)[0]);
    }
  }

  /** Distinct IDs use distinct keys, so their counters never share a slot. */
  lemma KeyOfInjective(a: ReleaseId, b: ReleaseId)
    ensures KeyOf(a) == KeyOf(b) <==> a == b
  {
    if KeyOf(a) == KeyOf(b) {
      if a.Num? && b.Num? {
        NumberOfDecimal(a.n);
        NumberOfDecimal(b.n);
      }
    }
  }

  // ---------------------------------------------------------------------
  // ALBUMS_TO_WATCH

  /** The watch list: empty when the setting is unset or empty, otherwise
      one ID per comma-separated piece, each piece trimmed before
      conversion. */
  function ParseWatchList(setting: Option<string>): (ids: seq<ReleaseId>)
    ensures setting == None || setting == Some("") ==> ids == []
    ensures setting.Some? && setting.value != "" ==>
              |ids| == CountOf(Separator, setting.value) + 1
              && forall i :: 0 <= i < |ids| ==> ids[i] == ToNumber(Trim(Split(setting.value)[i]))
  {
    if setting.None? || setting.value == "" then []
    else
      var pieces := Split(setting.value);
      seq(|pieces|, i requires 0 <= i < |pieces| => ToNumber(Trim(pieces[i])))
  }

  /** The setting text that spells each number in decimal, with the given
      whitespace before and after it. */
  function Spelled(ns: seq<nat>, leads: seq<string>, trails: seq<string>): seq<string>
    requires |leads| == |ns| && |trails| == |ns|
  {
    seq(|ns|, i requires 0 <= i < |ns| => leads[i] + Decimal(ns[i]) + trails[i])
  }

  /** One piece: a decimal spelling with whitespace around it converts
      back to the number it spells. */
  lemma PaddedDecimal(n: nat, lead: string, trail: string)
    requires AllTrimmable(lead) && AllTrimmable(trail)
    ensures Separator !in lead + Decimal(n) + trail
    ensures ToNumber(Trim(lead + Decimal(n) + trail)) == Num(n)
  {
    var d := Decimal(n);
    var p := lead + d + trail;
    assert !IsTrimmable(d[0]) && !IsTrimmable(d[|d| - 1]);
    assert forall k :: 0 <= k < |p| ==> p[k] != Separator by {
      forall k | 0 <= k < |p| ensures p[k] != Separator {
        if k < |lead| {
          assert p[k] == lead[k];
        } else if k < |lead| + |d| {
          assert p[k] == d[k - |lead|];
        } else {
          assert p[k] == trail[k - |lead| - |d|];
        }
      }
    }
    TrimPadded(lead, d, trail);
    NumberOfDecimal(n);
  }

  /** A setting that spells each number in decimal, with any whitespace
      around each one, parses back to exactly those numbers, in order. */
  lemma ParseSpelledList(ns: seq<nat>, leads: seq<string>, trails: seq<string>)
    requires |ns| >= 1 && |leads| == |ns| && |trails| == |ns|
    requires forall i :: 0 <= i < |ns| ==> AllTrimmable(leads[i]) && AllTrimmable(trails[i])
    ensures var ids := ParseWatchList(Some(Join(Spelled(ns, leads, trails))));
            |ids| == |ns| && forall i :: 0 <= i < |ns| ==> ids[i] == Num(ns[i])
  {
    var pieces := Spelled(ns, leads, trails);
    forall i | 0 <= i < |ns|
      ensures Separator !in pieces[i] && ToNumber(Trim(pieces[i])) == Num(ns[i])
    {
      PaddedDecimal(ns[i], leads[i], trails[i]);
    }
    SplitJoin(pieces);
  }
}
