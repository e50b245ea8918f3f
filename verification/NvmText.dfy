/** The text form of NVM items: one item per line, numbers separated by white space. */
module NvmText {
  import opened Bytes
  import opened NvmFormat
  import opened NvmPlan
  import opened NvmRecovery
  import opened NvmPools
  import opened Results

  const MAX_UPDATE_FREQ := 4

  datatype ReadError =
    | NotANumber | InvalidPool | MissingUpdateFreq | InvalidUpdateFreq | MissingTokenLength | TokenTooLong
    | InvalidTokenByte | MissingDataLength | DataTooLong | InvalidDataByte | TooManyValues | NegativeLength

  // ---------- words and numbers ----------

  /** What str.split() takes for white space. */
  predicate IsSpace(c: char) {
    || '\t' <= c <= '\r' || '\U{1c}' <= c <= ' ' || c == '\U{85}' || c == '\U{a0}' || c == '\U{1680}'
    || '\U{2000}' <= c <= '\U{200a}' || c == '\U{2028}' || c == '\U{2029}' || c == '\U{202f}' || c == '\U{205f}'
    || c == '\U{3000}'
  }

  /** Length of the word at the start of the text. */
  function WordLength(s: string): (n: nat)
    ensures n <= |s|
  {
    if s == "" || IsSpace(s[0]) then 0 else 1 + WordLength(s[1..])
  }

  function Words(s: string): seq<string>
    decreases |s|
  {
    if s == "" then []
    else if IsSpace(s[0]) then Words(s[1..])
    else
      var n := WordLength(s);
      [s[..n]] + Words(s[n..])
  }

  function DigitValue(c: char): Option<nat> {
    if '0' <= c <= '9' then Some(c as nat - '0' as nat)
    else if 'a' <= c <= 'z' then Some(c as nat - 'a' as nat + 10)
    else if 'A' <= c <= 'Z' then Some(c as nat - 'A' as nat + 10)
    else None
  }

  function Append(v: nat, base: nat, d: nat): nat { v * base + d }

  /** Digits of a base, single underscores allowed between them. */
  function Digits(s: string, base: nat): Option<nat>
    decreases |s|
  {
    if s == "" then None
    else
      match DigitValue(s[|s| - 1])
      case None => None
      case Some(d) =>
        if d >= base then None
        else if |s| == 1 then Some(d)
        else
          var init := if s[|s| - 2] == '_' then s[..|s| - 2] else s[..|s| - 1];
          match Digits(init, base)
          case None => None
          case Some(v) => Some(Append(v, base, d))
  }

  /** The part after a base prefix; one underscore may follow the prefix. */
  function PrefixedDigits(s: string, base: nat): Option<nat> {
    if s != "" && s[0] == '_' then Digits(s[1..], base) else Digits(s, base)
  }

  /** An unsigned literal; a decimal one has no leading zero unless it is zero. */
  function Literal(s: string): Option<nat> {
    if |s| >= 2 && s[0] == '0' && (s[1] == 'x' || s[1] == 'X') then PrefixedDigits(s[2..], 16)
    else if |s| >= 2 && s[0] == '0' && (s[1] == 'o' || s[1] == 'O') then PrefixedDigits(s[2..], 8)
    else if |s| >= 2 && s[0] == '0' && (s[1] == 'b' || s[1] == 'B') then PrefixedDigits(s[2..], 2)
    else
      match Digits(s, 10)
      case None => None
      case Some(v) => if s[0] == '0' && v != 0 then None else Some(v)
  }

  function Signed(v: Option<nat>, sign: int): Option<int> {
    if v.None? then None
    else
      var r: int := sign * v.value;
      Some(r)
  }

  /** int(w, 0). */
  function ParseInt(w: string): Option<int> {
    if w != "" && w[0] == '-' then Signed(Literal(w[1..]), -1)
    else if w != "" && w[0] == '+' then Signed(Literal(w[1..]), 1)
    else Signed(Literal(w), 1)
  }

  function ParseInts(words: seq<string>): Option<seq<int>> {
    if words == [] then Some([])
    else
      match ParseInts(words[..|words| - 1])
      case None => None
      case Some(values) =>
        match ParseInt(words[|words| - 1])
        case None => None
        case Some(v) => Some(values + [v])
  }

  // ---------- reading ----------

  predicate AllBytes(values: seq<int>) {
    forall k :: 0 <= k < |values| ==> 0 <= values[k] <= 255
  }

  function AsBytes(values: seq<int>): (bytes: seq<Byte>)
    requires AllBytes(values)
    ensures |bytes| == |values| && forall k :: 0 <= k < |values| ==> bytes[k] == values[k]
  {
    seq(|values|, k requires 0 <= k < |values| => values[k])
  }

  /** The values of one line. */
  function ReadValues(values: seq<int>, pools: int): Result<NvmItem, ReadError>
    requires |values| > 0
  {
    if values[0] < 0 || values[0] >= pools then Err(InvalidPool)
    else if |values| <= 1 then Err(MissingUpdateFreq)
    else if values[1] < 0 || values[1] > MAX_UPDATE_FREQ then Err(InvalidUpdateFreq)
    else if |values| <= 2 then Err(MissingTokenLength)
    else if 3 + values[2] > |values| then Err(TokenTooLong)
    else if values[2] < 0 then Err(NegativeLength)
    else
      var p := 3 + values[2];
      if !AllBytes(values[3..p]) then Err(InvalidTokenByte)
      else if p >= |values| then Err(MissingDataLength)
      else if p + 1 + values[p] > |values| then Err(DataTooLong)
      else if values[p] < 0 then Err(NegativeLength)
      else
        var q := p + 1 + values[p];
        if !AllBytes(values[p + 1..q]) then Err(InvalidDataByte)
        else if q < |values| then Err(TooManyValues)
        else Ok(NvmItem(values[0], values[1], AsBytes(values[3..p]), AsBytes(values[p + 1..q])))
  }

  /** The line's first character that is not white space is '#'. */
  predicate IsComment(line: string) {
    Words(line) != [] && Words(line)[0] != "" && Words(line)[0][0] == '#'
  }

  /** One line: nothing for a comment or an empty line. */
  function ReadLine(line: string, pools: int): Result<seq<NvmItem>, ReadError> {
    if IsComment(line) || Words(line) == [] then Ok([])
    else
      match ParseInts(Words(line))
      case None => Err(NotANumber)
      case Some(values) =>
        if values == [] then Ok([])
        else
          match ReadValues(values, pools)
          case Err(e) => Err(e)
          case Ok(item) => Ok([item])
  }

  function Read(lines: seq<string>, pools: int): Result<seq<NvmItem>, ReadError> {
    if lines == [] then Ok([])
    else
      match Read(lines[..|lines| - 1], pools)
      case Err(e) => Err(e)
      case Ok(items) =>
        match ReadLine(lines[|lines| - 1], pools)
        case Err(e) => Err(e)
        case Ok(more) => Ok(items + more)
  }

  // ---------- writing ----------

  function DigitChar(d: nat): (c: char)
    requires d < 16
  {
    "0123456789abcdef"[d]
  }

  function Dec(n: nat): string {
    if n < 10 then [DigitChar(n)] else Dec(n / 10) + [DigitChar(n % 10)]
  }

  function Hex(b: Byte): string { ['0', 'x', DigitChar(b / 16), DigitChar(b % 16)] }

  /** " ".join of the bytes. */
  function FormatBytes(data: seq<Byte>): string {
    if data == [] then "" else if |data| == 1 then Hex(data[0]) else Hex(data[0]) + " " + FormatBytes(data[1..])
  }

  function ItemLine(it: NvmItem): string
    requires it.poolId >= 0
  {
    Dec(it.poolId) + " " + Dec(it.updateFreq) + " " + Dec(|it.token|) + " " + FormatBytes(it.token) + " " +
    Dec(|it.data|) + " " + FormatBytes(it.data)
  }

  function ItemLines(items: seq<NvmItem>): seq<string>
    requires forall x :: x in items ==> x.poolId >= 0
  {
    if items == [] then [] else ItemLines(items[..|items| - 1]) + [ItemLine(items[|items| - 1])]
  }

  function PoolLines(items: seq<NvmItem>, k: nat): seq<string> {
    var mine := OfPool(items, k);
    PoolHeader(k, |mine|) + ItemLines(mine) + [""]
  }

  function PoolHeader(k: nat, count: nat): seq<string> {
    ["# Pool ID " + Dec(k) + ", " + Dec(count) + " items",
     "# " + "PoolId UpdateFreq TokenLen TokenBytes DataLen DataBytes"]
  }

  function Written(items: seq<NvmItem>, k: nat): seq<string> {
    if k == 0 then ["# NVM items"] else Written(items, k - 1) + PoolLines(items, k - 1)
  }

  // ---------- the loops ----------

  method WriteItems(items: seq<NvmItem>, pools: nat) returns (lines: seq<string>)
    ensures lines == Written(items, pools)
  {
    hide ItemLine, OfPool, PoolHeader;
    lines := ["# NVM items"];
    for poolId := 0 to pools
      invariant lines == Written(items, poolId)
    {
      var mine := FilterPool(items, poolId);
      var before := lines;
      var header := PoolHeader(poolId, |mine|);
      lines := lines + header;
      for k := 0 to |mine|
        invariant lines == before + header + ItemLines(mine[..k])
      {
        assert mine[..k + 1][..k] == mine[..k] && mine[k] in mine;
        lines := lines + [ItemLine(mine[k])];
      }
      assert mine[..|mine|] == mine;
      lines := lines + [""];
      assert lines == before + (header + ItemLines(mine) + [""]);
    }
  }

  method ReadItems(lines: seq<string>, pools: int) returns (res: Result<seq<NvmItem>, ReadError>)
    ensures res == Read(lines, pools)
  {
    hide Words, ParseInts, ReadValues, IsComment;
    var items: seq<NvmItem> := [];
    for k := 0 to |lines|
      invariant Read(lines[..k], pools) == Ok(items)
    {
      ghost var done := lines[..k + 1];
      assert done[..|done| - 1] == lines[..k] && done[|done| - 1] == lines[k];
      var line := lines[k];
      var words := Words(line);
      ParsedLength(words);
      assert items + [] == items;
      if IsComment(line) || words == [] {
        continue;
      }
      var values := ParseInts(words);
      var item := if values == None then Err(NotANumber) else LineItem(words, values.value, pools);
      if item.Err? {
        ReadFails(lines, k + 1, pools);
        return Err(item.error);
      }
      items := items + [item.value];
    }
    assert lines[..|lines|] == lines;
    res := Ok(items);
  }

  function LineItem(words: seq<string>, values: seq<int>, pools: int): Result<NvmItem, ReadError>
    requires words != [] && ParseInts(words) == Some(values)
  {
    ParsedLength(words);
    ReadValues(values, pools)
  }

  lemma {:induction false} ParsedLength(words: seq<string>)
    ensures ParseInts(words).Some? ==> |ParseInts(words).value| == |words|
  {
    if words != [] {
      ParsedLength(words[..|words| - 1]);
    }
  }

  lemma {:induction false} ReadFails(lines: seq<string>, k: nat, pools: int)
    requires k <= |lines| && Read(lines[..k], pools).Err?
    ensures Read(lines, pools) == Read(lines[..k], pools)
    decreases |lines|
  {
    if k == |lines| {
      assert lines[..k] == lines;
    } else {
      var init := lines[..|lines| - 1];
      assert init[..k] == lines[..k];
      ReadFails(init, k, pools);
    }
  }

  // ---------- what is written reads back ----------

  predicate NoSpace(s: string) { forall k :: 0 <= k < |s| ==> !IsSpace(s[k]) }

  /** Nothing, or something that starts with white space. */
  predicate Breaks(rest: string) { rest == "" || IsSpace(rest[0]) }

  lemma {:induction false} WordEnds(w: string, rest: string)
    requires NoSpace(w) && Breaks(rest)
    ensures WordLength(w + rest) == |w|
  {
    if w == "" {
      assert w + rest == rest;
    } else {
      assert (w + rest)[1..] == w[1..] + rest;
      WordEnds(w[1..], rest);
    }
  }

  lemma FirstWord(w: string, rest: string)
    requires w != "" && NoSpace(w) && Breaks(rest)
    ensures Words(w + rest) == [w] + Words(rest)
  {
    WordEnds(w, rest);
    assert (w + rest)[..|w|] == w && (w + rest)[|w|..] == rest;
  }

  lemma SpaceSkipped(rest: string)
    ensures Words(" " + rest) == Words(rest)
  {
    assert (" " + rest)[1..] == rest;
  }

  lemma WordThenSpace(w: string, rest: string)
    requires w != "" && NoSpace(w)
    ensures Words(w + (" " + rest)) == [w] + Words(rest)
  {
    FirstWord(w, " " + rest);
    SpaceSkipped(rest);
  }

  lemma DigitRoundTrip(d: nat)
    requires d < 16
    ensures DigitValue(DigitChar(d)) == Some(d)
    ensures !IsSpace(DigitChar(d)) && DigitChar(d) != '_' && DigitChar(d) != '+' && DigitChar(d) != '-'
    ensures DigitChar(d) == '0' <==> d == 0
  {
    if d < 4 {
      assert d == 0 || d == 1 || d == 2 || d == 3;
    } else if d < 8 {
      assert d == 4 || d == 5 || d == 6 || d == 7;
    } else if d < 12 {
      assert d == 8 || d == 9 || d == 10 || d == 11;
    } else {
      assert d == 12 || d == 13 || d == 14 || d == 15;
    }
  }

  lemma {:induction false} DecIsDigits(n: nat)
    ensures Dec(n) != "" && NoSpace(Dec(n)) && Digits(Dec(n), 10) == Some(n)
    ensures Dec(n)[0] != '+' && Dec(n)[0] != '-' && (Dec(n)[0] == '0' <==> n == 0)
    ensures Dec(n)[|Dec(n)| - 1] != '_' && (n < 10 <==> |Dec(n)| == 1)
    decreases n
  {
    hide IsSpace, DigitValue, DigitChar;
    DigitRoundTrip(n % 10);
    if n >= 10 {
      DecIsDigits(n / 10);
      assert Dec(n)[..|Dec(n)| - 1] == Dec(n / 10);
    }
  }

  lemma DecReadsBack(n: nat)
    ensures Dec(n) != "" && NoSpace(Dec(n)) && ParseInt(Dec(n)) == Some(n)
  {
    hide Digits, IsSpace;
    DecIsDigits(n);
  }

  lemma HexReadsBack(b: Byte)
    ensures Hex(b) != "" && NoSpace(Hex(b)) && ParseInt(Hex(b)) == Some(b)
  {
    var hi, lo := b / 16, b % 16;
    DigitRoundTrip(hi);
    DigitRoundTrip(lo);
    var s := [DigitChar(hi), DigitChar(lo)];
    assert Hex(b)[2..] == s;
    HexDigits(hi, lo);
  }

  lemma HexDigits(hi: nat, lo: nat)
    requires hi < 16 && lo < 16
    ensures PrefixedDigits([DigitChar(hi), DigitChar(lo)], 16) == Some(16 * hi + lo)
  {
    hide IsSpace, DigitValue, DigitChar;
    DigitRoundTrip(hi);
    DigitRoundTrip(lo);
    var s := [DigitChar(hi), DigitChar(lo)];
    assert s[..1] == [DigitChar(hi)];
    assert Digits([DigitChar(hi)], 16) == Some(hi);
  }

  function Hexes(data: seq<Byte>): (ws: seq<string>)
    ensures |ws| == |data|
  {
    if data == [] then [] else [Hex(data[0])] + Hexes(data[1..])
  }

  lemma {:induction false} BytesAreWords(data: seq<Byte>, rest: string)
    requires Breaks(rest)
    ensures Words(FormatBytes(data) + rest) == Hexes(data) + Words(rest)
  {
    hide Words, Hex, IsSpace;
    if data == [] {
      assert FormatBytes(data) + rest == rest;
    } else {
      HexReadsBack(data[0]);
      if |data| == 1 {
        assert data[1..] == [];
        FirstWord(Hex(data[0]), rest);
      } else {
        BytesAreWords(data[1..], rest);
        WordThenSpace(Hex(data[0]), FormatBytes(data[1..]) + rest);
        assert FormatBytes(data) + rest == Hex(data[0]) + (" " + (FormatBytes(data[1..]) + rest));
      }
    }
  }

  function LineWords(it: NvmItem): seq<string>
    requires it.poolId >= 0
  {
    [Dec(it.poolId)] + ([Dec(it.updateFreq)] + ([Dec(|it.token|)] +
    (Hexes(it.token) + ([Dec(|it.data|)] + Hexes(it.data)))))
  }

  lemma SpaceBreaks(rest: string)
    ensures Breaks(" " + rest) && Breaks("")
  {}

  lemma ItemLineWords(it: NvmItem)
    requires it.poolId >= 0
    ensures Words(ItemLine(it)) == LineWords(it)
  {
    hide Words, Dec, FormatBytes, Hexes, IsSpace;
    DecReadsBack(it.poolId);
    DecReadsBack(it.updateFreq);
    DecReadsBack(|it.token|);
    DecReadsBack(|it.data|);
    var d5 := FormatBytes(it.data);
    var d4 := Dec(|it.data|) + (" " + d5);
    var d3 := FormatBytes(it.token) + (" " + d4);
    var d2 := Dec(|it.token|) + (" " + d3);
    var d1 := Dec(it.updateFreq) + (" " + d2);
    SpaceBreaks(d4);
    BytesAreWords(it.data, "");
    NoWords();
    assert d5 + "" == d5;
    WordThenSpace(Dec(|it.data|), d5);
    BytesAreWords(it.token, " " + d4);
    SpaceSkipped(d4);
    WordThenSpace(Dec(|it.token|), d3);
    WordThenSpace(Dec(it.updateFreq), d2);
    WordThenSpace(Dec(it.poolId), d1);
    Reassociate(Dec(it.poolId), Dec(it.updateFreq), Dec(|it.token|), FormatBytes(it.token), Dec(|it.data|), d5);
    assert Hexes(it.data) + [] == Hexes(it.data);
  }

  lemma NoWords()
    ensures Words("") == []
  {}

  lemma Reassociate(a: string, b: string, c: string, d: string, e: string, f: string)
    ensures a + " " + b + " " + c + " " + d + " " + e + " " + f ==
            a + (" " + (b + (" " + (c + (" " + (d + (" " + (e + (" " + f)))))))))
  {}

  lemma {:induction false} ParseConcat(a: seq<string>, b: seq<string>)
    requires ParseInts(a).Some? && ParseInts(b).Some?
    ensures ParseInts(a + b) == Some(ParseInts(a).value + ParseInts(b).value)
    decreases |b|
  {
    hide ParseInt;
    if b == [] {
      assert a + b == a;
      assert ParseInts(a).value + ParseInts(b).value == ParseInts(a).value;
    } else {
      var init := b[..|b| - 1];
      assert (a + b)[..|a + b| - 1] == a + init;
      ParseConcat(a, init);
      var va, vi, v := ParseInts(a).value, ParseInts(init).value, ParseInt(b[|b| - 1]).value;
      assert va + (vi + [v]) == (va + vi) + [v];
    }
  }

  lemma ParseOne(w: string, v: int)
    requires ParseInt(w) == Some(v)
    ensures ParseInts([w]) == Some([v])
  {
    hide ParseInt;
    assert [w][..0] == [];
    var none: seq<int> := [];
    assert ParseInts([]) == Some(none);
    assert none + [v] == [v];
  }

  lemma {:induction false} ParseHexes(data: seq<Byte>)
    ensures ParseInts(Hexes(data)) == Some(data)
  {
    hide ParseInt, Hex;
    if data != [] {
      HexReadsBack(data[0]);
      ParseOne(Hex(data[0]), data[0]);
      ParseHexes(data[1..]);
      ParseConcat([Hex(data[0])], Hexes(data[1..]));
      var first: int := data[0];
      assert [first] + data[1..] == data;
    }
  }

  /** A written item reads back, unless its update frequency is one the reader refuses. */
  lemma ItemLineReadsBack(it: NvmItem, pools: int)
    requires 0 <= it.poolId < pools
    ensures ReadLine(ItemLine(it), pools) ==
            if it.updateFreq <= MAX_UPDATE_FREQ then Ok([it]) else Err(InvalidUpdateFreq)
  {
    hide ParseInt, Words, Dec, Hexes, ParseInts, IsSpace, ReadValues;
    ItemLineWords(it);
    DecReadsBack(it.poolId);
    DecReadsBack(it.updateFreq);
    DecReadsBack(|it.token|);
    DecReadsBack(|it.data|);
    DecIsDigits(it.poolId);
    ParseOne(Dec(it.poolId), it.poolId);
    ParseOne(Dec(it.updateFreq), it.updateFreq);
    ParseOne(Dec(|it.token|), |it.token|);
    ParseOne(Dec(|it.data|), |it.data|);
    ParseHexes(it.token);
    ParseHexes(it.data);
    ParseConcat([Dec(|it.data|)], Hexes(it.data));
    ParseConcat(Hexes(it.token), [Dec(|it.data|)] + Hexes(it.data));
    var w3 := Hexes(it.token) + ([Dec(|it.data|)] + Hexes(it.data));
    ParseConcat([Dec(|it.token|)], w3);
    ParseConcat([Dec(it.updateFreq)], [Dec(|it.token|)] + w3);
    ParseConcat([Dec(it.poolId)], [Dec(it.updateFreq)] + ([Dec(|it.token|)] + w3));
    DecNotHash(it.poolId);
    ValuesReadBack(it, pools);
  }

  lemma DecNotHash(n: nat)
    ensures Dec(n) != "" && Dec(n)[0] != '#'
  {
    hide IsSpace;
    DecIsDigits(n);
    FirstDigit(n);
  }

  lemma {:induction false} FirstDigit(n: nat)
    ensures Dec(n) != "" && DigitValue(Dec(n)[0]).Some?
    decreases n
  {
    DigitRoundTrip(n % 10);
    if n >= 10 {
      FirstDigit(n / 10);
    }
  }

  function ItemValues(it: NvmItem): seq<int> {
    [it.poolId] + ([it.updateFreq] + ([|it.token|] + (it.token + ([|it.data|] + it.data))))
  }

  lemma ValuesReadBack(it: NvmItem, pools: int)
    requires 0 <= it.poolId < pools
    ensures ReadValues(ItemValues(it), pools) ==
      if it.updateFreq <= MAX_UPDATE_FREQ then Ok(it) else Err(InvalidUpdateFreq)
  {
    var v, t := ItemValues(it), |it.token|;
    assert v[0] == it.poolId && v[1] == it.updateFreq && v[2] == t && v[3 + t] == |it.data|;
    assert v[3..3 + t] == it.token;
    assert v[3 + t + 1..] == it.data;
    assert v[3 + t + 1..3 + t + 1 + |it.data|] == it.data;
    assert AllBytes(it.token) && AllBytes(it.data);
    assert AsBytes(it.token) == it.token && AsBytes(it.data) == it.data;
  }

  // ---------- whole files ----------

  function Join(a: Result<seq<NvmItem>, ReadError>, b: Result<seq<NvmItem>, ReadError>)
    : Result<seq<NvmItem>, ReadError>
  {
    match a
    case Err(e) => Err(e)
    case Ok(x) => match b case Err(e) => Err(e) case Ok(y) => Ok(x + y)
  }

  lemma {:induction false} ReadConcat(a: seq<string>, b: seq<string>, pools: int)
    ensures Read(a + b, pools) == Join(Read(a, pools), Read(b, pools))
    decreases |b|
  {
    hide ReadLine;
    if b == [] {
      assert a + b == a;
      assert Read(a, pools).Ok? ==> Read(a, pools).value + [] == Read(a, pools).value;
    } else {
      var init := b[..|b| - 1];
      assert (a + b)[..|a + b| - 1] == a + init;
      ReadConcat(a, init, pools);
      var last := ReadLine(b[|b| - 1], pools);
      if Read(a, pools).Ok? && Read(init, pools).Ok? && last.Ok? {
        var va, vi := Read(a, pools).value, Read(init, pools).value;
        assert va + (vi + last.value) == (va + vi) + last.value;
      }
    }
  }

  lemma CommentLine(rest: string, pools: int)
    ensures ReadLine("#" + (" " + rest), pools) == Ok([]) && ReadLine("", pools) == Ok([])
  {
    assert !IsSpace('#');
    hide IsSpace;
    WordThenSpace("#", rest);
  }

  lemma ReadTwo(a: string, b: string, pools: int)
    requires ReadLine(a, pools) == Ok([]) && ReadLine(b, pools) == Ok([])
    ensures Read([a], pools) == Ok([]) && Read([a, b], pools) == Ok([])
  {
    hide ReadLine;
    var none: seq<NvmItem> := [];
    assert none + none == none;
    assert [a][..0] == [] && [a, b][..1] == [a];
    assert Read([], pools) == Ok(none);
  }

  predicate Readable(items: seq<NvmItem>) {
    forall x :: x in items ==> x.updateFreq <= MAX_UPDATE_FREQ
  }

  lemma ReadOneMore(lines: seq<string>, line: string, pools: int)
    ensures Read(lines + [line], pools) == Join(Read(lines, pools), ReadLine(line, pools))
  {
    hide ReadLine;
    assert (lines + [line])[..|lines|] == lines;
  }

  lemma {:induction false} ItemLinesReadBack(items: seq<NvmItem>, pools: int)
    requires forall x :: x in items ==> 0 <= x.poolId < pools
    ensures Read(ItemLines(items), pools) == if Readable(items) then Ok(items) else Err(InvalidUpdateFreq)
  {
    hide ReadLine, ItemLine, Read;
    if items == [] {
      ReadNothing(pools);
    } else {
      var init, last := items[..|items| - 1], items[|items| - 1];
      ItemLinesReadBack(init, pools);
      ItemLineReadsBack(last, pools);
      ReadOneMore(ItemLines(init), ItemLine(last), pools);
      assert items == init + [last];
      assert Readable(items) <==> Readable(init) && last.updateFreq <= MAX_UPDATE_FREQ;
    }
  }

  lemma ReadNothing(pools: int)
    ensures Read([], pools) == Ok([])
  {}

  lemma {:induction false} ItemLineCount(items: seq<NvmItem>)
    requires forall x :: x in items ==> x.poolId >= 0
    ensures |ItemLines(items)| == |items|
  {
    hide ItemLine;
    if items != [] {
      ItemLineCount(items[..|items| - 1]);
    }
  }

  lemma PoolLinesReadBack(items: seq<NvmItem>, k: nat, pools: int)
    requires k < pools
    ensures Read(PoolLines(items, k), pools) ==
      if Readable(OfPool(items, k)) then Ok(OfPool(items, k)) else Err(InvalidUpdateFreq)
  {
    hide Read, ReadLine, ItemLines, OfPool, PoolHeader;
    var mine := OfPool(items, k);
    HeaderReadsBack(k, |mine|, pools);
    CommentLine("", pools);
    ReadTwo("", "", pools);
    ItemLinesReadBack(mine, pools);
    ReadConcat(PoolHeader(k, |mine|), ItemLines(mine), pools);
    ReadConcat(PoolHeader(k, |mine|) + ItemLines(mine), [""], pools);
    assert [] + mine == mine && mine + [] == mine;
  }

  lemma HeaderReadsBack(k: nat, count: nat, pools: int)
    ensures Read(PoolHeader(k, count), pools) == Ok([])
  {
    hide Read, ReadLine, Dec;
    var a := "Pool ID " + Dec(k) + ", " + Dec(count) + " items";
    var b := "PoolId UpdateFreq TokenLen TokenBytes DataLen DataBytes";
    CommentLine(a, pools);
    CommentLine(b, pools);
    assert "# Pool ID " == "#" + (" " + "Pool ID ");
    assert "# Pool ID " + Dec(k) + ", " + Dec(count) + " items" == "#" + (" " + a);
    assert "# " + b == "#" + (" " + b);
    ReadTwo("#" + (" " + a), "#" + (" " + b), pools);
  }

  /** The items of pools 0 to k - 1, pool by pool. */
  function Grouped(items: seq<NvmItem>, k: nat): seq<NvmItem> {
    if k == 0 then [] else Grouped(items, k - 1) + OfPool(items, k - 1)
  }

  lemma {:induction false} WrittenReadsBack(items: seq<NvmItem>, k: nat, pools: int)
    requires k <= pools
    ensures Read(Written(items, k), pools) ==
      if Readable(Grouped(items, k)) then Ok(Grouped(items, k)) else Err(InvalidUpdateFreq)
    decreases k
  {
    hide ReadLine, PoolLines, OfPool;
    if k == 0 {
      CommentLine("NVM items", pools);
      assert "# NVM items" == "#" + (" " + "NVM items");
      ReadTwo("# NVM items", "# NVM items", pools);
    } else {
      WrittenReadsBack(items, k - 1, pools);
      PoolLinesReadBack(items, k - 1, pools);
      ReadConcat(Written(items, k - 1), PoolLines(items, k - 1), pools);
    }
  }

  /** Reading the written text gives the items of the pools back, grouped by pool and otherwise in order, exactly when
      none of them has an update frequency above 4; items of other pools are not written. */
  lemma {:induction false} TextRoundTrip(items: seq<NvmItem>, pools: nat)
    ensures Read(Written(items, pools), pools).Ok? <==>
      forall x :: x in items && 0 <= x.poolId < pools ==> x.updateFreq <= MAX_UPDATE_FREQ
    ensures Read(Written(items, pools), pools).Ok? ==> Read(Written(items, pools), pools).value == Grouped(items, pools)
  {
    hide Read, Written;
    WrittenReadsBack(items, pools, pools);
    GroupedMembers(items, pools);
  }

  lemma {:induction false} GroupedMembers(items: seq<NvmItem>, k: nat)
    ensures forall x :: x in Grouped(items, k) <==> x in items && 0 <= x.poolId < k
  {
    if k > 0 {
      GroupedMembers(items, k - 1);
    }
  }

  // ---------- text, image, text ----------

  lemma {:induction false} OverwriteMembers(items: seq<NvmItem>)
    ensures forall x :: x in Overwrite(items) ==> x in items
  {
    if items != [] {
      var before, after := Overwrite(items[..|items| - 1]), Overwrite(items);
      OverwriteMembers(items[..|items| - 1]);
      forall k | 0 <= k < |after| ensures after[k] in items {
        if after[k] != items[|items| - 1] {
          assert k < |before| && after[k] == before[k] && before[k] in before;
        }
      }
    }
  }

  lemma {:induction false} RecoveredPools(items: seq<NvmItem>, k: nat, j: nat)
    ensures OfPool(Recovered(items, k), j) == if j < k then Overwrite(Sorted(OfPool(items, j))) else []
    ensures forall x :: x in Recovered(items, k) ==> x in items && 0 <= x.poolId < k
  {
    hide OfPool, Overwrite, Sorted;
    if k == 0 {
      OfPoolUniform([], 0, j);
    } else {
      var mine := OfPool(items, k - 1);
      RecoveredPools(items, k - 1, j);
      SortedMembers(mine);
      OverwriteMembers(Sorted(mine));
      OfPoolConcat(Recovered(items, k - 1), Overwrite(Sorted(mine)), j);
      OfPoolUniform(Overwrite(Sorted(mine)), k - 1, j);
    }
  }

  lemma {:induction false} RecoveredIsGrouped(items: seq<NvmItem>, k: nat, m: nat)
    requires m <= k
    ensures Grouped(Recovered(items, k), m) == Recovered(items, m)
    decreases m
  {
    hide OfPool, Overwrite, Sorted;
    if m > 0 {
      RecoveredIsGrouped(items, k, m - 1);
      RecoveredPools(items, k, m - 1);
    }
  }

  /** Items that could be read as text survive image and text: what analysis recovers, written and read, is
      unchanged. */
  lemma ImageTextRoundTrip(raw: seq<Byte>, items: seq<NvmItem>, sizes: seq<nat>, copies: nat)
    requires copies >= 1 && IsToolImage(raw, items, sizes, copies) && Readable(items)
    ensures ImageAnalysis(raw, Some(sizes)).Ok?
    ensures Read(Written(ImageAnalysis(raw, Some(sizes)).value, |sizes|), |sizes|) == Ok(Recovered(items, |sizes|))
  {
    hide Read, Written, IsToolImage, Recovered, ImageAnalysis;
    ImageOfPoolsRoundTrip(raw, items, sizes, copies);
    RecoveredPools(items, |sizes|, 0);
    RecoveredIsGrouped(items, |sizes|, |sizes|);
    TextRoundTrip(Recovered(items, |sizes|), |sizes|);
  }
}
