/** What the lines of the text form may look like: words, integers in four bases, and the values of an item. */
module NvmSpelling {
  import opened Bytes
  import opened NvmFormat
  import opened NvmText
  import opened Results

  // ---------- digits ----------

  /** The character stands for the digit. */
  predicate Stands(c: char, d: nat, base: nat) {
    d < base && d < 16 && (c == "0123456789abcdef"[d] || c == "0123456789ABCDEF"[d])
  }

  lemma DigitStands(c: char, d: nat, base: nat)
    requires base <= 16
    ensures DigitValue(c) == Some(d) && d < base <==> Stands(c, d, base)
  {
    if d < 10 {
      LowDigits(d);
    } else if d < 16 {
      HighDigits(d);
    }
  }

  lemma LowDigits(d: nat)
    requires d < 10
    ensures "0123456789abcdef"[d] == "0123456789ABCDEF"[d] == '0' + d as char
  {
    assert d == 0 || d == 1 || d == 2 || d == 3 || d == 4 || d == 5 || d == 6 || d == 7 || d == 8 || d == 9;
  }

  lemma HighDigits(d: nat)
    requires 10 <= d < 16
    ensures "0123456789abcdef"[d] == 'a' + (d - 10) as char && "0123456789ABCDEF"[d] == 'A' + (d - 10) as char
  {
    assert d == 10 || d == 11 || d == 12 || d == 13 || d == 14 || d == 15;
  }

  lemma NoUnderscore(c: char, d: nat, base: nat)
    requires Stands(c, d, base)
    ensures c != '_' && c != '+' && c != '-' && c != 'x' && c != 'X' && c != 'o' && c != 'O'
    ensures base <= 10 ==> c != 'b' && c != 'B'
    ensures c == '0' <==> d == 0
  {
    if d < 10 {
      LowDigits(d);
    } else {
      HighDigits(d);
    }
  }

  /** The text is these digits, with at most one underscore between two of them. */
  predicate Spells(s: string, ds: seq<nat>, base: nat) {
    && s != "" && ds != [] && Stands(s[0], ds[0], base)
    && if |ds| == 1 then |s| == 1
       else Spells(s[1..], ds[1..], base) || (|s| > 1 && s[1] == '_' && Spells(s[2..], ds[1..], base))
  }

  function Power(base: nat, n: nat): nat {
    if n == 0 then 1 else base * Power(base, n - 1)
  }

  /** Each digit counts by its place. */
  function Positional(ds: seq<nat>, base: nat): nat {
    if ds == [] then 0 else ds[0] * Power(base, |ds| - 1) + Positional(ds[1..], base)
  }

  lemma {:induction false} OneMoreDigit(ds: seq<nat>, d: nat, base: nat)
    ensures Positional(ds + [d], base) == Positional(ds, base) * base + d
  {
    if ds == [] {
      assert [d][1..] == [];
    } else {
      OneMoreDigit(ds[1..], d, base);
      assert (ds + [d])[1..] == ds[1..] + [d];
      Distribute(ds[0], Power(base, |ds| - 1), Positional(ds[1..], base), base);
    }
  }

  lemma Distribute(a: nat, p: nat, q: nat, base: nat)
    ensures a * (base * p) + q * base == (a * p + q) * base
  {}

  lemma {:induction false} SpellsMore(s: string, ds: seq<nat>, c: char, d: nat, base: nat)
    requires Spells(s, ds, base) && Stands(c, d, base)
    ensures Spells(s + [c], ds + [d], base) && Spells(s + ['_', c], ds + [d], base)
  {
    hide Stands;
    assert (ds + [d])[1..] == ds[1..] + [d];
    assert Spells([c], [d], base);
    var one, two := s + [c], s + ['_', c];
    if |ds| == 1 {
      assert one[1..] == [c] && two[2..] == [c] && ds[1..] + [d] == [d];
    } else if Spells(s[1..], ds[1..], base) {
      SpellsMore(s[1..], ds[1..], c, d, base);
      assert one[1..] == s[1..] + [c] && two[1..] == s[1..] + ['_', c];
    } else {
      SpellsMore(s[2..], ds[1..], c, d, base);
      assert one[2..] == s[2..] + [c] && two[2..] == s[2..] + ['_', c];
    }
  }

  /** The text without its last digit and an underscore before that. */
  function Shorter(s: string): string
    requires |s| >= 2
  {
    if s[|s| - 2] == '_' then s[..|s| - 2] else s[..|s| - 1]
  }

  lemma ShorterTail(s: string, k: nat)
    requires |s| >= k + 2 && (s[|s| - 2] == '_' ==> |s| >= k + 3)
    ensures Shorter(s[k..]) == Shorter(s)[k..]
  {}

  lemma {:induction false} SpellsLess(s: string, ds: seq<nat>, base: nat)
    requires Spells(s, ds, base)
    ensures s != "" && ds != [] && Stands(s[|s| - 1], ds[|ds| - 1], base) && (|ds| == 1 <==> |s| == 1)
    ensures |ds| > 1 ==> Spells(Shorter(s), ds[..|ds| - 1], base)
  {
    hide Stands;
    NoUnderscore(s[0], ds[0], base);
    if |ds| > 1 {
      var next := if Spells(s[1..], ds[1..], base) then s[1..] else s[2..];
      SpellsLess(next, ds[1..], base);
      NoUnderscore(next[0], ds[1], base);
      assert |next| >= 3 ==> next[|next| - 2] == s[|s| - 2];
      var init := ds[..|ds| - 1];
      assert init[1..] == ds[1..][..|ds| - 2];
      if |ds| == 2 {
        assert Shorter(s) == s[..1];
      } else if Spells(s[1..], ds[1..], base) {
        ShorterTail(s, 1);
      } else {
        ShorterTail(s, 2);
      }
    }
  }

  /** A spelled number is read as its positional sum. */
  lemma {:induction false} SpelledIsRead(s: string, ds: seq<nat>, base: nat)
    requires Spells(s, ds, base) && base <= 16
    ensures Digits(s, base) == Some(Positional(ds, base))
    decreases |s|
  {
    hide Spells, Stands, DigitValue;
    SpellsLess(s, ds, base);
    DigitStands(s[|s| - 1], ds[|ds| - 1], base);
    var init := ds[..|ds| - 1];
    assert ds == init + [ds[|ds| - 1]];
    OneMoreDigit(init, ds[|ds| - 1], base);
    if |ds| > 1 {
      SpelledIsRead(Shorter(s), init, base);
    }
  }

  /** What is read was spelled. */
  lemma {:induction false} ReadIsSpelled(s: string, base: nat)
    requires Digits(s, base).Some? && base <= 16
    ensures exists ds :: Spells(s, ds, base) && Digits(s, base) == Some(Positional(ds, base))
    decreases |s|
  {
    hide Stands, DigitValue;
    var c := s[|s| - 1];
    var d := DigitValue(c).value;
    DigitStands(c, d, base);
    if |s| == 1 {
      assert Spells(s, [d], base);
      SpelledIsRead(s, [d], base);
    } else {
      var init := Shorter(s);
      ReadIsSpelled(init, base);
      var ds :| Spells(init, ds, base) && Digits(init, base) == Some(Positional(ds, base));
      SpellsMore(init, ds, c, d, base);
      assert s == init + [c] || s == init + ['_', c];
      SpelledIsRead(s, ds + [d], base);
    }
  }

  // ---------- integers ----------

  ghost predicate IsNumber(s: string, base: nat, v: int) {
    exists ds :: Spells(s, ds, base) && v == Positional(ds, base)
  }

  lemma NumberIsRead(s: string, base: nat, v: nat)
    requires base <= 16
    ensures Digits(s, base) == Some(v) <==> IsNumber(s, base, v)
  {
    hide Digits, Spells;
    if Digits(s, base).Some? {
      ReadIsSpelled(s, base);
    }
    if IsNumber(s, base, v) {
      var ds :| Spells(s, ds, base) && v == Positional(ds, base);
      SpelledIsRead(s, ds, base);
    }
  }

  /** A number behind 0 and one of the letters. */
  ghost predicate HasPrefix(s: string, letters: string, base: nat, v: int) {
    && |s| >= 2 && s[0] == '0' && s[1] in letters
    && (IsNumber(s[2..], base, v) || (|s| > 2 && s[2] == '_' && IsNumber(s[3..], base, v)))
  }

  /** An integer without a sign: hexadecimal, octal, binary, or decimal without leading zeros, unless it is 0. */
  ghost predicate IsLiteral(s: string, v: int) {
    || HasPrefix(s, "xX", 16, v) || HasPrefix(s, "oO", 8, v) || HasPrefix(s, "bB", 2, v)
    || (s != "" && IsNumber(s, 10, v) && (s[0] == '0' ==> v == 0))
  }

  lemma NumberStarts(s: string, base: nat, v: int)
    requires IsNumber(s, base, v)
    ensures s != "" && s[0] != '_' && s[0] != '+' && s[0] != '-'
    ensures |s| > 1 && base <= 10 ==> s[1] !in "xXoObB"
  {
    var ds :| Spells(s, ds, base) && v == Positional(ds, base);
    NoUnderscore(s[0], ds[0], base);
    if |ds| > 1 && Spells(s[1..], ds[1..], base) {
      NoUnderscore(s[1], ds[1], base);
    }
  }

  lemma PrefixedIsRead(s: string, base: nat, v: nat)
    requires base <= 16
    ensures PrefixedDigits(s, base) == Some(v) <==>
            IsNumber(s, base, v) || (s != "" && s[0] == '_' && IsNumber(s[1..], base, v))
  {
    hide Digits, IsNumber;
    NumberIsRead(s, base, v);
    if s != "" && s[0] == '_' {
      NumberIsRead(s[1..], base, v);
      if IsNumber(s, base, v) {
        NumberStarts(s, base, v);
      }
    }
  }

  lemma LiteralIsRead(s: string, v: nat)
    ensures Literal(s) == Some(v) <==> IsLiteral(s, v)
  {
    hide Digits, IsNumber, PrefixedDigits;
    NumberIsRead(s, 10, v);
    if IsNumber(s, 10, v) {
      NumberStarts(s, 10, v);
    }
    if |s| >= 2 {
      PrefixedIsRead(s[2..], 16, v);
      PrefixedIsRead(s[2..], 8, v);
      PrefixedIsRead(s[2..], 2, v);
    }
  }

  lemma LiteralStarts(s: string, v: int)
    requires IsLiteral(s, v)
    ensures v >= 0 && s != "" && s[0] != '+' && s[0] != '-'
  {
    hide IsNumber;
    if s != "" && IsNumber(s, 10, v) {
      NumberStarts(s, 10, v);
    }
    NumbersAreNatural(s, v);
  }

  lemma NumbersAreNatural(s: string, v: int)
    requires IsLiteral(s, v)
    ensures v >= 0
  {}

  /** Reading an integer succeeds with n exactly on the spellings of n. */
  lemma IntegerIsRead(w: string, n: int)
    ensures ParseInt(w) == Some(n) <==>
      || IsLiteral(w, n)
      || (w != "" && w[0] == '+' && IsLiteral(w[1..], n))
      || (w != "" && w[0] == '-' && IsLiteral(w[1..], -n))
  {
    hide Literal, IsLiteral;
    forall s: string, v: int
      ensures IsLiteral(s, v) ==> v >= 0 && s != "" && s[0] != '+' && s[0] != '-'
      ensures v >= 0 ==> (Literal(s) == Some(v) <==> IsLiteral(s, v))
    {
      if IsLiteral(s, v) {
        LiteralStarts(s, v);
      }
      if v >= 0 {
        LiteralIsRead(s, v);
      }
    }
  }

  /** How numbers are written: a byte as 0x and two lower-case digits, any other number in decimal without leading
      zeros. */
  lemma NumbersAreWritten(n: nat, b: Byte)
    ensures IsLiteral(Dec(n), n) && forall k :: 0 <= k < |Dec(n)| ==> '0' <= Dec(n)[k] <= '9'
    ensures Hex(b) == ['0', 'x', "0123456789abcdef"[b / 16], "0123456789abcdef"[b % 16]]
  {
    hide IsLiteral;
    DecIsDigits(n);
    NumberIsRead(Dec(n), 10, n);
    DecIsPlain(n);
    DecIsLiteral(n);
  }

  lemma DecIsLiteral(n: nat)
    requires Dec(n) != "" && IsNumber(Dec(n), 10, n) && (Dec(n)[0] == '0' <==> n == 0)
    ensures IsLiteral(Dec(n), n)
  {}

  lemma {:induction false} DecIsPlain(n: nat)
    ensures forall k :: 0 <= k < |Dec(n)| ==> '0' <= Dec(n)[k] <= '9'
    decreases n
  {
    LowDigits(n % 10);
    if n >= 10 {
      DecIsPlain(n / 10);
    }
  }

  // ---------- words ----------

  predicate Blank(s: string) { forall k :: 0 <= k < |s| ==> IsSpace(s[k]) }

  /** The words of the text: nonempty, without white space, as long as can be, and nothing but white space around
      them. */
  ghost predicate Splits(s: string, ws: seq<string>)
    decreases |ws|
  {
    if ws == [] then Blank(s)
    else
      exists gap, rest :: s == gap + ws[0] + rest && Blank(gap) && Breaks(rest) && ws[0] != "" && NoSpace(ws[0]) &&
        Splits(rest, ws[1..])
  }

  lemma {:induction false} WordIsClean(s: string)
    ensures NoSpace(s[..WordLength(s)]) && Breaks(s[WordLength(s)..])
    ensures s != "" && !IsSpace(s[0]) ==> WordLength(s) > 0
  {
    if s != "" && !IsSpace(s[0]) {
      WordIsClean(s[1..]);
      assert s[..WordLength(s)] == [s[0]] + s[1..][..WordLength(s[1..])];
      assert s[WordLength(s)..] == s[1..][WordLength(s[1..])..];
    }
  }

  lemma {:induction false} BlankSkipped(gap: string, rest: string)
    requires Blank(gap)
    ensures Words(gap + rest) == Words(rest)
  {
    hide IsSpace;
    if gap == "" {
      assert gap + rest == rest;
    } else {
      assert (gap + rest)[1..] == gap[1..] + rest;
      BlankSkipped(gap[1..], rest);
    }
  }

  lemma {:induction false} SplitIsFound(s: string, ws: seq<string>)
    requires Splits(s, ws)
    ensures Words(s) == ws
    decreases |ws|
  {
    hide IsSpace, NoSpace, Blank;
    if ws == [] {
      BlankSkipped(s, "");
      NoWords();
      assert s + "" == s;
    } else {
      var gap, rest :| s == gap + ws[0] + rest && Blank(gap) && Breaks(rest) && ws[0] != "" && NoSpace(ws[0]) &&
        Splits(rest, ws[1..]);
      SplitIsFound(rest, ws[1..]);
      FirstWord(ws[0], rest);
      BlankSkipped(gap, ws[0] + rest);
      assert s == gap + (ws[0] + rest);
    }
  }

  lemma {:induction false} FoundIsSplit(s: string)
    ensures Splits(s, Words(s))
    decreases |s|
  {
    hide IsSpace, NoSpace, Breaks;
    if s != "" && IsSpace(s[0]) {
      FoundIsSplit(s[1..]);
      MoreBlank(s, Words(s));
    } else if s != "" {
      var n, ws := WordLength(s), Words(s);
      WordIsClean(s);
      FoundIsSplit(s[n..]);
      assert s == "" + ws[0] + s[n..] && Blank("");
      assert ws[1..] == Words(s[n..]);
    }
  }

  lemma MoreBlank(s: string, ws: seq<string>)
    requires s != "" && IsSpace(s[0]) && Splits(s[1..], ws)
    ensures Splits(s, ws)
  {
    hide IsSpace, NoSpace, Breaks;
    if ws != [] {
      var gap, rest :| s[1..] == gap + ws[0] + rest && Blank(gap) && Breaks(rest) && ws[0] != "" && NoSpace(ws[0]) &&
        Splits(rest, ws[1..]);
      assert s == [s[0]] + gap + ws[0] + rest && Blank([s[0]] + gap);
    }
  }

  /** The words found are those the text splits into, and no other split exists. */
  lemma WordsAre(s: string, ws: seq<string>)
    ensures Words(s) == ws <==> Splits(s, ws)
  {
    hide Splits, Words;
    FoundIsSplit(s);
    if Splits(s, ws) {
      SplitIsFound(s, ws);
    }
  }

  lemma AsciiSpaces(c: char)
    requires c < 128 as char
    ensures IsSpace(c) <==> c in ['\t', '\n', '\U{b}', '\U{c}', '\r', '\U{1c}', '\U{1d}', '\U{1e}', '\U{1f}', ' ']
  {}

  /** A comment is a line with nothing but white space before a '#'. */
  lemma CommentsAre(line: string)
    ensures IsComment(line) <==> exists gap, rest :: line == gap + "#" + rest && Blank(gap)
  {
    hide IsSpace, Words, NoSpace, Blank, Breaks;
    FoundIsSplit(line);
    if IsComment(line) {
      var w := Words(line)[0];
      var gap, rest :| line == gap + w + rest && Blank(gap);
      assert line == gap + "#" + (w[1..] + rest);
    }
    if gap, rest :| line == gap + "#" + rest && Blank(gap) {
      assert line == gap + ("#" + rest);
      BlankSkipped(gap, "#" + rest);
      HashFirst("#" + rest);
    }
  }

  lemma HashFirst(s: string)
    requires s != "" && s[0] == '#'
    ensures Words(s) != [] && Words(s)[0] != "" && Words(s)[0][0] == '#'
  {
    WordIsClean(s);
  }

  // ---------- items ----------

  /** A line is read word by word. */
  lemma {:induction false} IntegersAreRead(ws: seq<string>, values: seq<int>)
    ensures ParseInts(ws) == Some(values) <==>
      |ws| == |values| && forall k :: 0 <= k < |ws| ==> ParseInt(ws[k]) == Some(values[k])
    decreases |ws|
  {
    hide ParseInt;
    if ws != [] && values != [] {
      var n, m := |ws| - 1, |values| - 1;
      IntegersAreRead(ws[..n], values[..m]);
      assert values == values[..m] + [values[m]];
      if ParseInts(ws).Some? {
        IntegersAreRead(ws[..n], ParseInts(ws[..n]).value);
      }
    }
  }

  lemma AcceptedIs(values: seq<int>, pools: int, it: NvmItem)
    requires values != [] && ReadValues(values, pools) == Ok(it)
    ensures |values| > 3 && values[0] == it.poolId && values[1] == it.updateFreq && values[2] == |it.token|
    ensures 0 <= it.poolId < pools && it.updateFreq <= 4
    ensures var t := |it.token|;
      && |values| == 4 + t + |it.data| && values[3 + t] == |it.data|
      && values[3..3 + t] == it.token && values[4 + t..] == it.data
  {
    hide AllBytes;
  }

  lemma InParts(v: seq<int>, token: seq<int>, data: seq<int>)
    requires |v| == 4 + |token| + |data| && v[2] == |token| && v[3 + |token|] == |data|
    requires v[3..3 + |token|] == token && v[4 + |token|..] == data
    ensures v == [v[0]] + ([v[1]] + ([|token|] + (token + ([|data|] + data))))
  {
    var t := |token|;
    assert v == v[..3] + v[3..3 + t] + v[3 + t..4 + t] + v[4 + t..];
    assert v[..3] == [v[0], v[1], t] && v[3 + t..4 + t] == [|data|];
  }

  lemma AcceptedIsItem(values: seq<int>, pools: int, it: NvmItem)
    requires values != [] && ReadValues(values, pools) == Ok(it)
    ensures values == ItemValues(it) && 0 <= it.poolId < pools && it.updateFreq <= 4
  {
    hide ReadValues;
    AcceptedIs(values, pools, it);
    InParts(values, it.token, it.data);
  }

  /** A line's values are accepted exactly when they are the pool, the frequency, and the token and the data behind
      their lengths, in range: then they are that item. */
  lemma ValuesAre(values: seq<int>, pools: int, it: NvmItem)
    requires values != []
    ensures ReadValues(values, pools) == Ok(it) <==>
            values == ItemValues(it) && 0 <= it.poolId < pools && it.updateFreq <= 4
  {
    hide ReadValues, ItemValues;
    if ReadValues(values, pools) == Ok(it) {
      AcceptedIsItem(values, pools, it);
    }
    if values == ItemValues(it) && 0 <= it.poolId < pools {
      ValuesReadBack(it, pools);
    }
  }

  /** What the reader says of an item's values of which only the first n are there. */
  lemma CutShortIsReported(it: NvmItem, pools: int, n: nat)
    requires 0 <= it.poolId < pools && it.updateFreq <= 4 && 0 < n < |ItemValues(it)|
    ensures var t := |it.token|;
      ReadValues(ItemValues(it)[..n], pools) == Err(
        if n == 1 then MissingUpdateFreq else if n == 2 then MissingTokenLength else if n < 3 + t then TokenTooLong
        else if n == 3 + t then MissingDataLength else DataTooLong)
  {
    var v, t := ItemValues(it)[..n], |it.token|;
    ItemPlaces(it);
    if n >= 3 + t {
      assert v[3..3 + t] == ItemValues(it)[3..3 + t];
    }
  }

  /** Where the parts of an item's values lie. */
  lemma ItemPlaces(it: NvmItem)
    ensures var v, t := ItemValues(it), |it.token|;
      && |v| == 4 + t + |it.data| && v[0] == it.poolId && v[1] == it.updateFreq && v[2] == t && v[3 + t] == |it.data|
      && v[3..3 + t] == it.token && v[4 + t..] == it.data && v[4 + t..4 + t + |it.data|] == it.data
  {}

  lemma ExtraIsReported(it: NvmItem, pools: int, more: seq<int>)
    requires 0 <= it.poolId < pools && it.updateFreq <= 4 && more != []
    ensures ReadValues(ItemValues(it) + more, pools) == Err(TooManyValues)
  {
    var v, w, t, d := ItemValues(it), ItemValues(it) + more, |it.token|, |it.data|;
    ItemPlaces(it);
    assert w[3..3 + t] == v[3..3 + t] && w[4 + t..4 + t + d] == v[4 + t..4 + t + d];
  }

  lemma BytesAreBytes(values: seq<Byte>)
    ensures AllBytes(values)
  {}

  lemma NotBytes(values: seq<int>, k: nat)
    requires k < |values|
    ensures !(0 <= values[k] <= 255) ==> !AllBytes(values)
  {}

  /** What the reader says when one value of an item is out of range. */
  lemma BadValueIsReported(it: NvmItem, pools: int, k: nat, bad: int)
    requires 0 <= it.poolId < pools && it.updateFreq <= 4 && k < |ItemValues(it)|
    ensures var t, res := |it.token|, ReadValues(ItemValues(it)[k := bad], pools);
      && (k == 0 && !(0 <= bad < pools) ==> res == Err(InvalidPool))
      && (k == 1 && !(0 <= bad <= 4) ==> res == Err(InvalidUpdateFreq))
      && ((k == 2 || k == 3 + t) && bad < 0 ==> res == Err(NegativeLength))
      && (3 <= k < 3 + t && !(0 <= bad <= 255) ==> res == Err(InvalidTokenByte))
      && (k >= 4 + t && !(0 <= bad <= 255) ==> res == Err(InvalidDataByte))
  {
    var v, w, t := ItemValues(it), ItemValues(it)[k := bad], |it.token|;
    ItemPlaces(it);
    BytesAreBytes(it.token);
    hide AllBytes;
    if k >= 3 + t {
      assert w[3..3 + t] == v[3..3 + t];
      if k >= 4 + t {
        NotBytes(w[4 + t..4 + t + |it.data|], k - 4 - t);
      }
    } else if k >= 3 {
      NotBytes(w[3..3 + t], k - 3);
    }
  }
}
