/** The delimiter protocol. Before translation every comment is wrapped in a
    marker line; after translation the text is searched for the markers and
    each captured body goes back onto a comment. Three generations of the
    protocol exist:

      wrapping                  reading back
      "§\n" + c + "\n"          (?m)^§\n([^§]+)        pkg/nico/message.go, main.go
      "§" + %d + "\n" + c + "\n"  (?m)^§(\d+)\n([^§]+)   cmd/nicotrans/main.go
      "$\n" + c + "\n"          (?m)^\$\n(.+)          nicotrans.go

    The regular expressions are modelled as hand-written scanners over bytes.
    `(?m)^` holds at the start of the input and right after a `\n`; the flag
    `bol` carries that fact from one position to the next. Go's matcher steps
    over runes, the scanners over bytes; both find the same matches, because
    a match can only start at `§` (whose first byte 0xC2 never continues
    another UTF-8 sequence) or at `$` right after a `\n`. After a match the
    search resumes where the match ended, as `FindAll` does. */
module Markers {
  import opened Common
  import opened Decimal

  const NL: byte := 0x0A
  const DOLLAR: byte := 0x24
  /** U+00A7 SECTION SIGN in UTF-8 (RFC 3629, section 3): two bytes. */
  const SECTION: bytes := [0xC2, 0xA7]

  /** A `§` starts at byte `i` of `s`. */
  predicate SectionAt(s: bytes, i: int)
  {
    0 <= i < |s| - 1 && s[i] == 0xC2 && s[i + 1] == 0xA7
  }

  predicate HasSection(s: bytes)
  {
    exists i :: 0 <= i < |s| && SectionAt(s, i)
  }

  /** Length of the longest prefix of `s` without a `§`: what `[^§]*`
      matches greedily. It stops exactly at the first `§`. */
  function SectionFreeRun(s: bytes): (n: nat)
    ensures n <= |s|
    ensures forall i :: 0 <= i < n ==> !SectionAt(s, i)
    ensures n < |s| ==> SectionAt(s, n)
  {
    if s == [] || SectionAt(s, 0) then 0
    else
      var m := SectionFreeRun(s[1..]);
      assert forall j :: 1 <= j < m + 1 ==> !SectionAt(s, j) by {
        forall j | 1 <= j < m + 1 ensures !SectionAt(s, j) {
          assert !SectionAt(s[1..], j - 1);
        }
      }
      1 + m
  }

  /** A prefix that stops before the first `§` holds no `§`. */
  lemma SectionFreePrefix(s: bytes, n: nat)
    requires n <= |s|
    requires forall i :: 0 <= i < n ==> !SectionAt(s, i)
    ensures !HasSection(s[..n])
  {
    forall i | 0 <= i < n ensures !SectionAt(s[..n], i) {
      assert !SectionAt(s, i);
    }
  }

  /** Length of the longest prefix of `s` without a `\n`: what `.*`
      matches greedily. */
  function LineRun(s: bytes): (n: nat)
    ensures n <= |s|
    ensures forall i :: 0 <= i < n ==> s[i] != NL
    ensures n < |s| ==> s[n] == NL
  {
    if s == [] || s[0] == NL then 0 else 1 + LineRun(s[1..])
  }

  /** The first line of `c`, without its `\n`. */
  function FirstLine(c: bytes): (r: bytes)
    ensures r <= c
    ensures NL !in r
    ensures NL !in c ==> r == c
  {
    c[..LineRun(c)]
  }

  /** No line of `c` after the first one starts with `$`. */
  predicate NoDollarLine(c: bytes)
  {
    forall i :: 0 < i < |c| && c[i - 1] == NL ==> c[i] != DOLLAR
  }

  // ---------------------------------------------------------------- wrapping

  /** `fmt.Sprintf("§\n%s\n", c)` */
  function SectionItem(c: bytes): bytes { SECTION + [NL] + c + [NL] }

  /** `fmt.Sprintf("§%d\n%s\n", i, c)` */
  function IndexedItem(i: nat, c: bytes): bytes { SECTION + Format(i) + [NL] + c + [NL] }

  /** `fmt.Sprintf("$\n%s\n", c)` */
  function DollarItem(c: bytes): bytes { [DOLLAR, NL] + c + [NL] }

  function SectionItems(cs: seq<bytes>): seq<bytes>
  {
    seq(|cs|, k requires 0 <= k < |cs| => SectionItem(cs[k]))
  }

  function IndexedItems(cs: seq<bytes>): seq<bytes>
  {
    seq(|cs|, k requires 0 <= k < |cs| => IndexedItem(k, cs[k]))
  }

  function DollarItems(cs: seq<bytes>): seq<bytes>
  {
    seq(|cs|, k requires 0 <= k < |cs| => DollarItem(cs[k]))
  }

  // ---------------------------------------------------------------- scanning

  /** Length of the body captured by `§\n([^§]+)` at the start of `t`;
      0 when there is no match there. */
  function SectionBodyLen(t: bytes): (n: nat)
    ensures n > 0 ==> 3 + n <= |t|
  {
    if |t| >= 3 && t[0] == 0xC2 && t[1] == 0xA7 && t[2] == NL then SectionFreeRun(t[3..]) else 0
  }

  /** The captures of `(?m)^§\n([^§]+)` in `t`, in order; `bol` tells
      whether `t` starts at a line start. Every capture is a non-empty
      stretch without `§`. */
  function SectionScan(t: bytes, bol: bool): (r: seq<bytes>)
    ensures forall k :: 0 <= k < |r| ==> |r[k]| > 0 && !HasSection(r[k])
    decreases |t|
  {
    if t == [] then []
    else
      var n := SectionBodyLen(t);
      if bol && n > 0 then
        assert t[3..3 + n] == t[3..][..n];
        SectionFreePrefix(t[3..], n);
        [t[3..3 + n]] + SectionScan(t[3 + n..], t[2 + n] == NL)
      else SectionScan(t[1..], t[0] == NL)
  }

  /** `chunkPattern.FindAllSubmatch(s, -1)`, group 1 of each match. */
  function SectionMatches(s: bytes): seq<bytes> { SectionScan(s, true) }

  /** A match of `^§(\d+)\n([^§]+)`: group 1 through `strconv.Atoi`, and
      group 2. */
  datatype Query = Query(index: int, body: bytes)

  /** Digit count and body length of the match of `§(\d+)\n([^§]+)` at the
      start of `t`; the body length is 0 when there is no match there. */
  function IndexedMatchAt(t: bytes): (r: (nat, nat))
    ensures r.1 > 0 ==> 0 < r.0 && 3 + r.0 + r.1 <= |t| && AllDigits(t[2..2 + r.0]) && t[2 + r.0] == NL
  {
    var d := if |t| >= 2 && t[0] == 0xC2 && t[1] == 0xA7 then DigitRun(t[2..]) else 0;
    if d > 0 && 2 + d < |t| && t[2 + d] == NL then
      assert t[2..2 + d] == t[2..][..d];
      assert AllDigits(t[2..][..d]);
      (d, SectionFreeRun(t[3 + d..]))
    else (d, 0)
  }

  /** The matches of `(?m)^§(\d+)\n([^§]+)` in `t`, in order. */
  function IndexedScan(t: bytes, bol: bool): (r: seq<Query>)
    ensures forall k :: 0 <= k < |r| ==> 0 <= r[k].index <= MaxInt && |r[k].body| > 0 && !HasSection(r[k].body)
    decreases |t|
  {
    if t == [] then []
    else
      var (d, n) := IndexedMatchAt(t);
      if bol && n > 0 then
        assert t[3 + d..3 + d + n] == t[3 + d..][..n];
        SectionFreePrefix(t[3 + d..], n);
        [Query(Atoi(t[2..2 + d]), t[3 + d..3 + d + n])] + IndexedScan(t[3 + d + n..], t[2 + d + n] == NL)
      else IndexedScan(t[1..], t[0] == NL)
  }

  /** `queriesPattern.FindAllStringSubmatch(s, -1)` with group 1 converted
      by `strconv.Atoi`. */
  function IndexedMatches(s: bytes): seq<Query> { IndexedScan(s, true) }

  /** Length of the body captured by `\$\n(.+)` at the start of `t`; 0 when
      there is no match there. */
  function DollarBodyLen(t: bytes): (n: nat)
    ensures n > 0 ==> 2 + n <= |t|
  {
    if |t| >= 2 && t[0] == DOLLAR && t[1] == NL then LineRun(t[2..]) else 0
  }

  /** The captures of `(?m)^\$\n(.+)` in `t`, in order: each a non-empty
      piece of a single line. */
  function DollarScan(t: bytes, bol: bool): (r: seq<bytes>)
    ensures forall k :: 0 <= k < |r| ==> |r[k]| > 0 && NL !in r[k]
    decreases |t|
  {
    if t == [] then []
    else
      var n := DollarBodyLen(t);
      if bol && n > 0 then
        assert forall i :: 0 <= i < n ==> t[2..2 + n][i] == t[2..][i];
        [t[2..2 + n]] + DollarScan(t[2 + n..], false)
      else DollarScan(t[1..], t[0] == NL)
  }

  /** `pattern.FindAllSubmatch(s, -1)` of nicotrans.go, group 1 of each match. */
  function DollarMatches(s: bytes): seq<bytes> { DollarScan(s, true) }

  // ---------------------------------------------------------------- reading back what was written

  lemma SectionFreeRunIs(s: bytes, n: nat)
    requires n <= |s|
    requires forall i :: 0 <= i < n ==> !SectionAt(s, i)
    requires n < |s| ==> SectionAt(s, n)
    ensures SectionFreeRun(s) == n
  {
  }

  /** The body after a marker runs to the next `§`: through the content and
      its closing `\n`, up to the next item. */
  lemma SectionFreeRunOfItemBody(c: bytes, rest: bytes)
    requires !HasSection(c)
    requires rest == [] || SectionAt(rest, 0)
    ensures SectionFreeRun(c + [NL] + rest) == |c| + 1
  {
    var s := c + [NL] + rest;
    assert s[|c|] == NL;
    forall i | 0 <= i < |c| + 1 ensures !SectionAt(s, i) {
      if i < |c| - 1 {
        assert s[i] == c[i] && s[i + 1] == c[i + 1];
        assert !SectionAt(c, i);
      } else if i == |c| - 1 {
        assert s[i + 1] == NL;
      }
    }
    if rest != [] {
      assert s[|c| + 1] == rest[0] && s[|c| + 2] == rest[1];
    }
    SectionFreeRunIs(s, |c| + 1);
  }

  /** One wrapped item in front of further items reads back as its content
      plus the closing `\n`. */
  lemma SectionScanItem(c: bytes, rest: bytes)
    requires !HasSection(c)
    requires rest == [] || SectionAt(rest, 0)
    ensures SectionScan(SectionItem(c) + rest, true) == [c + [NL]] + SectionScan(rest, true)
  {
    var t := SectionItem(c) + rest;
    SectionLayout(c, rest);
    SectionFreeRunOfItemBody(c, rest);
    var n := |c| + 1;
    assert SectionBodyLen(t) == n;
  }

  /** Where the parts of a `§` item sit in the text. */
  lemma SectionLayout(c: bytes, rest: bytes)
    ensures var t := SectionItem(c) + rest;
            |t| >= 3 && t[0] == 0xC2 && t[1] == 0xA7 && t[2] == NL && t[3..] == c + [NL] + rest
            && t[3..3 + |c| + 1] == c + [NL] && t[3 + |c| + 1..] == rest
  {
    var t := SectionItem(c) + rest;
    assert t == SECTION + ([NL] + (c + [NL] + rest));
    assert t[3..] == c + [NL] + rest;
    assert t[3..3 + |c| + 1] == t[3..][..|c| + 1];
    assert t[3 + |c| + 1..] == t[3..][|c| + 1..];
  }

  /** Round trip of the `§` protocol: when no content holds a `§`, reading
      back the concatenated items gives every content, in order, with the
      item's closing `\n` still attached (`[^§]+` runs up to the next
      marker). Embedded newlines survive. */
  lemma SectionRoundTrip(cs: seq<bytes>)
    requires forall k :: 0 <= k < |cs| ==> !HasSection(cs[k])
    ensures SectionMatches(Concat(SectionItems(cs))) == seq(|cs|, k requires 0 <= k < |cs| => cs[k] + [NL])
  {
    SectionRoundTripFrom(cs, 0);
    assert SectionItems(cs)[0..] == SectionItems(cs);
    assert SectionBodies(cs, 0) == seq(|cs|, k requires 0 <= k < |cs| => cs[k] + [NL]);
  }

  /** The same with one more `\n` after the last item (a translated buffer
      followed by the `\n` the reader adds): the last content comes back
      with both `\n`s. */
  lemma SectionRoundTripNewline(cs: seq<bytes>)
    requires cs != []
    requires forall k :: 0 <= k < |cs| ==> !HasSection(cs[k])
    ensures SectionMatches(Concat(SectionItems(cs)) + [NL])
            == seq(|cs|, k requires 0 <= k < |cs| => if k == |cs| - 1 then cs[k] + [NL, NL] else cs[k] + [NL])
  {
    var n := |cs| - 1;
    var cs' := cs[..n] + [cs[n] + [NL]];
    SectionItemsNewline(cs);
    forall k | 0 <= k < |cs'| ensures !HasSection(cs'[k]) {
      if k < n {
        assert cs'[k] == cs[k];
      } else {
        NoSectionNewline(cs[n]);
      }
    }
    SectionRoundTrip(cs');
    var got := seq(|cs'|, k requires 0 <= k < |cs'| => cs'[k] + [NL]);
    var want := seq(|cs|, k requires 0 <= k < |cs| => if k == |cs| - 1 then cs[k] + [NL, NL] else cs[k] + [NL]);
    forall k | 0 <= k < |cs| ensures got[k] == want[k] {
      if k == n {
        assert got[k] == cs[n] + [NL] + [NL];
      } else {
        assert cs'[k] == cs[k];
      }
    }
    assert got == want;
  }

  /** Putting one more `\n` at the end of the last content puts one more
      `\n` at the end of the text. */
  lemma SectionItemsNewline(cs: seq<bytes>)
    requires cs != []
    ensures var n := |cs| - 1;
            Concat(SectionItems(cs[..n] + [cs[n] + [NL]])) == Concat(SectionItems(cs)) + [NL]
  {
    var n := |cs| - 1;
    var last := cs[n] + [NL];
    var cs' := cs[..n] + [last];
    assert SectionItems(cs) == SectionItems(cs[..n]) + [SectionItem(cs[n])];
    assert SectionItems(cs') == SectionItems(cs[..n]) + [SectionItem(last)];
    ConcatSnoc(SectionItems(cs[..n]), SectionItem(cs[n]));
    ConcatSnoc(SectionItems(cs[..n]), SectionItem(last));
    assert SectionItem(last) == SectionItem(cs[n]) + [NL];
  }

  /** A `\n` after a content brings no `§` into it. */
  lemma NoSectionNewline(c: bytes)
    requires !HasSection(c)
    ensures !HasSection(c + [NL])
  {
    var last := c + [NL];
    forall i | 0 <= i < |last| ensures !SectionAt(last, i) {
      if i < |c| - 1 {
        assert last[i] == c[i] && last[i + 1] == c[i + 1];
        assert !SectionAt(c, i);
      } else if i == |c| - 1 {
        assert last[i + 1] == NL;
      }
    }
  }

  /** What reading back the `§` items from `j` on should give. */
  function SectionBodies(cs: seq<bytes>, j: nat): seq<bytes>
    requires j <= |cs|
  {
    seq(|cs| - j, k requires 0 <= k < |cs| - j => cs[j + k] + [NL])
  }

  lemma SectionBodiesCons(cs: seq<bytes>, j: nat)
    requires j < |cs|
    ensures SectionBodies(cs, j) == [cs[j] + [NL]] + SectionBodies(cs, j + 1)
  {
    var all := SectionBodies(cs, j);
    var tail := SectionBodies(cs, j + 1);
    var got := [cs[j] + [NL]] + tail;
    assert |got| == |all|;
    forall k | 0 <= k < |all| ensures got[k] == all[k] {
      if k > 0 {
        assert got[k] == tail[k - 1];
      }
    }
  }

  /** The `§` items from `j` on are item `j` followed by the items after it. */
  lemma SectionConcatFrom(cs: seq<bytes>, j: nat)
    requires j < |cs|
    ensures Concat(SectionItems(cs)[j..]) == SectionItem(cs[j]) + Concat(SectionItems(cs)[j + 1..])
  {
    var items := SectionItems(cs);
    assert items[j..] == [items[j]] + items[j + 1..];
    ConcatCons(items[j], items[j + 1..]);
  }

  /** What follows `§` item `j` is either nothing or the next marker. */
  lemma SectionNextMarker(cs: seq<bytes>, j: nat)
    requires j < |cs|
    ensures var rest := Concat(SectionItems(cs)[j + 1..]);
            rest == [] || SectionAt(rest, 0)
  {
    var items := SectionItems(cs);
    if j + 1 < |cs| {
      SectionConcatFrom(cs, j + 1);
      var next := SectionItem(cs[j + 1]);
      assert next == SECTION + ([NL] + cs[j + 1] + [NL]);
      assert next[0] == 0xC2 && next[1] == 0xA7;
    } else {
      assert items[j + 1..] == [];
    }
  }

  lemma {:induction false} SectionRoundTripFrom(cs: seq<bytes>, j: nat)
    requires j <= |cs|
    requires forall k :: 0 <= k < |cs| ==> !HasSection(cs[k])
    ensures SectionScan(Concat(SectionItems(cs)[j..]), true) == SectionBodies(cs, j)
    decreases |cs| - j
  {
    if j < |cs| {
      SectionRoundTripFrom(cs, j + 1);
      SectionConcatFrom(cs, j);
      SectionNextMarker(cs, j);
      SectionScanItem(cs[j], Concat(SectionItems(cs)[j + 1..]));
      SectionBodiesCons(cs, j);
    } else {
      assert SectionItems(cs)[j..] == [];
    }
  }

  /** A marker `§`, a run of digits, `\n`, a body without `§` and its
      closing `\n`, in front of the next marker: the match reads the digits
      and runs the body through the closing `\n`. */
  lemma IndexedMatchAtHeader(f: bytes, c: bytes, rest: bytes)
    requires 0 < |f| && AllDigits(f)
    requires !HasSection(c)
    requires rest == [] || SectionAt(rest, 0)
    ensures var t := SECTION + f + [NL] + c + [NL] + rest;
            IndexedMatchAt(t) == (|f|, |c| + 1)
            && t[2..2 + |f|] == f
            && t[3 + |f|..3 + |f| + |c| + 1] == c + [NL]
            && t[3 + |f| + |c| + 1..] == rest
  {
    var t := SECTION + f + [NL] + c + [NL] + rest;
    HeaderLayout(f, c, rest);
    BodyLayout(t, 3 + |f|, c, rest);
    DigitRunOf(f, t[2 + |f|..]);
    SectionFreeRunOfItemBody(c, rest);
  }

  /** Where the header parts of `§<f>\n<c>\n<rest>` sit. */
  lemma HeaderLayout(f: bytes, c: bytes, rest: bytes)
    ensures var t := SECTION + f + [NL] + c + [NL] + rest;
            t[0] == 0xC2 && t[1] == 0xA7
            && t[2..] == f + t[2 + |f|..] && t[2..2 + |f|] == f
            && t[2 + |f|] == NL && t[3 + |f|..] == c + [NL] + rest
  {
    var body := c + [NL] + rest;
    var t := SECTION + f + [NL] + c + [NL] + rest;
    assert t == SECTION + f + [NL] + body;
    assert t == SECTION + (f + ([NL] + body));
    assert t == (SECTION + f + [NL]) + body;
  }

  /** Where the body parts sit once `c`, `\n` and `rest` start at `off`. */
  lemma BodyLayout(t: bytes, off: nat, c: bytes, rest: bytes)
    requires off <= |t| && t[off..] == c + [NL] + rest
    ensures t[off..off + |c| + 1] == c + [NL] && t[off + |c| + 1..] == rest
  {
    assert t[off..off + |c| + 1] == t[off..][..|c| + 1];
    assert t[off + |c| + 1..] == t[off..][|c| + 1..];
  }

  /** At the start of an indexed item the header reads as `Format(i)` and
      the body runs through the content and its closing `\n`. */
  lemma IndexedMatchAtItem(i: nat, c: bytes, rest: bytes)
    requires !HasSection(c)
    requires rest == [] || SectionAt(rest, 0)
    ensures var t := IndexedItem(i, c) + rest;
            IndexedMatchAt(t) == (|Format(i)|, |c| + 1)
            && t[2..2 + |Format(i)|] == Format(i)
            && t[3 + |Format(i)|..3 + |Format(i)| + |c| + 1] == c + [NL]
            && t[3 + |Format(i)| + |c| + 1..] == rest
  {
    IndexedMatchAtHeader(Format(i), c, rest);
  }

  /** The `%d` header, then `\n` and a body without `§`, read back as the
      number and the body plus `\n`. */
  lemma IndexedScanItem(i: nat, c: bytes, rest: bytes)
    requires i <= MaxInt
    requires !HasSection(c)
    requires rest == [] || SectionAt(rest, 0)
    ensures IndexedScan(IndexedItem(i, c) + rest, true) == [Query(i, c + [NL])] + IndexedScan(rest, true)
  {
    var t := IndexedItem(i, c) + rest;
    IndexedMatchAtItem(i, c, rest);
    FormatValue(i);
    assert Atoi(t[2..2 + |Format(i)|]) == i;
  }

  /** Round trip of the indexed protocol: item k carries the number k, and
      reading back the concatenation gives (k, content k plus `\n`) for
      every k, in order. The bound is that of a Go slice length. */
  lemma IndexedRoundTrip(cs: seq<bytes>)
    requires |cs| <= MaxInt + 1
    requires forall k :: 0 <= k < |cs| ==> !HasSection(cs[k])
    ensures IndexedMatches(Concat(IndexedItems(cs)))
            == seq(|cs|, k requires 0 <= k < |cs| => Query(k, cs[k] + [NL]))
  {
    IndexedRoundTripFrom(cs, 0);
    assert IndexedItems(cs)[0..] == IndexedItems(cs);
    assert IndexedQueries(cs, 0) == seq(|cs|, k requires 0 <= k < |cs| => Query(k, cs[k] + [NL]));
  }

  /** What reading back items `j..` should give. */
  function IndexedQueries(cs: seq<bytes>, j: nat): seq<Query>
    requires j <= |cs|
  {
    seq(|cs| - j, k requires 0 <= k < |cs| - j => Query(j + k, cs[j + k] + [NL]))
  }

  lemma IndexedQueriesCons(cs: seq<bytes>, j: nat)
    requires j < |cs|
    ensures IndexedQueries(cs, j) == [Query(j, cs[j] + [NL])] + IndexedQueries(cs, j + 1)
  {
    var all := IndexedQueries(cs, j);
    var tail := IndexedQueries(cs, j + 1);
    var got := [Query(j, cs[j] + [NL])] + tail;
    assert |got| == |all|;
    forall k | 0 <= k < |all| ensures got[k] == all[k] {
      if k > 0 {
        assert got[k] == tail[k - 1];
      }
    }
  }

  lemma {:induction false} IndexedRoundTripFrom(cs: seq<bytes>, j: nat)
    requires j <= |cs| <= MaxInt + 1
    requires forall k :: 0 <= k < |cs| ==> !HasSection(cs[k])
    ensures IndexedScan(Concat(IndexedItems(cs)[j..]), true) == IndexedQueries(cs, j)
    decreases |cs| - j
  {
    var items := IndexedItems(cs);
    if j < |cs| {
      IndexedRoundTripFrom(cs, j + 1);
      var rest := Concat(items[j + 1..]);
      IndexedConcatFrom(cs, j);
      IndexedNextMarker(cs, j);
      IndexedScanItem(j, cs[j], rest);
      IndexedQueriesCons(cs, j);
    } else {
      assert items[j..] == [];
    }
  }

  /** The items from `j` on are item `j` followed by the items after it. */
  lemma IndexedConcatFrom(cs: seq<bytes>, j: nat)
    requires j < |cs|
    ensures Concat(IndexedItems(cs)[j..]) == IndexedItem(j, cs[j]) + Concat(IndexedItems(cs)[j + 1..])
  {
    var items := IndexedItems(cs);
    assert items[j..] == [items[j]] + items[j + 1..];
    ConcatCons(items[j], items[j + 1..]);
  }

  /** What follows item `j` is either nothing or the next marker. */
  lemma IndexedNextMarker(cs: seq<bytes>, j: nat)
    requires j < |cs|
    ensures var rest := Concat(IndexedItems(cs)[j + 1..]);
            rest == [] || SectionAt(rest, 0)
  {
    var items := IndexedItems(cs);
    if j + 1 < |cs| {
      IndexedConcatFrom(cs, j + 1);
      var next := IndexedItem(j + 1, cs[j + 1]);
      assert next == SECTION + (Format(j + 1) + [NL] + cs[j + 1] + [NL]);
      assert next[0] == 0xC2 && next[1] == 0xA7;
    } else {
      assert items[j + 1..] == [];
    }
  }

  /** Scanning over text that holds no `$` at a line start skips it, and
      the text after it starts a line. */
  lemma {:induction false} DollarSkip(u: bytes, rest: bytes, bol: bool)
    requires |u| > 0 && u[|u| - 1] == NL
    requires bol ==> u[0] != DOLLAR
    requires forall i :: 0 < i < |u| && u[i - 1] == NL ==> u[i] != DOLLAR
    ensures DollarScan(u + rest, bol) == DollarScan(rest, true)
    decreases |u|
  {
    var t := u + rest;
    assert t[0] == u[0];
    if |u| == 1 {
      assert t[1..] == rest;
    } else {
      assert t[1..] == u[1..] + rest;
      DollarSkip(u[1..], rest, u[0] == NL);
    }
  }

  /** A `$` item reads back as the first line of its content: `.+` stops at
      the first `\n`, and the rest of the content is skipped. */
  lemma DollarScanItem(c: bytes, rest: bytes)
    requires |c| > 0 && c[0] != NL
    requires NoDollarLine(c)
    ensures DollarScan(DollarItem(c) + rest, true) == [FirstLine(c)] + DollarScan(rest, true)
  {
    var t := DollarItem(c) + rest;
    var n := LineRun(c);
    DollarLayout(c, rest, n);
    LineRunThrough(c, rest);
    assert DollarBodyLen(t) == n;
    var u := c[n..] + [NL];
    DollarFreeTail(c, n);
    DollarSkip(u, rest, false);
  }

  /** Where the parts of a `$` item sit in the text. */
  lemma DollarLayout(c: bytes, rest: bytes, n: nat)
    requires n <= |c|
    ensures var t := DollarItem(c) + rest;
            |t| >= 2 && t[0] == DOLLAR && t[1] == NL && t[2..] == c + ([NL] + rest)
            && t[2..2 + n] == c[..n] && t[2 + n..] == (c[n..] + [NL]) + rest
  {
    var t := DollarItem(c) + rest;
    assert t == [DOLLAR, NL] + (c + ([NL] + rest));
    assert t[2..] == c + ([NL] + rest);
    assert t[2..2 + n] == t[2..][..n];
    assert t[2 + n..] == t[2..][n..];
  }

  /** `.*` over a content followed by `\n` stops where it stops in the
      content alone. */
  lemma {:induction false} LineRunThrough(c: bytes, rest: bytes)
    ensures LineRun(c + ([NL] + rest)) == LineRun(c)
    decreases |c|
  {
    var s := c + ([NL] + rest);
    if c == [] {
      assert s[0] == NL;
    } else {
      assert s[0] == c[0];
      if c[0] != NL {
        assert s[1..] == c[1..] + ([NL] + rest);
        LineRunThrough(c[1..], rest);
      }
    }
  }

  /** What follows the first line of a content, with its closing `\n`, has
      no `$` at a line start. */
  lemma DollarFreeTail(c: bytes, n: nat)
    requires n <= |c|
    requires NoDollarLine(c)
    ensures var u := c[n..] + [NL];
            forall i :: 0 < i < |u| && u[i - 1] == NL ==> u[i] != DOLLAR
  {
    var u := c[n..] + [NL];
    forall i | 0 < i < |u| && u[i - 1] == NL ensures u[i] != DOLLAR {
      if i < |u| - 1 {
        assert u[i] == c[n + i] && u[i - 1] == c[n + i - 1];
      }
    }
  }

  /** Round trip of the `$` protocol: when every content starts with a
      non-empty line and no later line of it starts with `$`, reading back
      gives the first line of every content, in order. */
  lemma DollarRoundTrip(cs: seq<bytes>)
    requires forall k :: 0 <= k < |cs| ==> |cs[k]| > 0 && cs[k][0] != NL && NoDollarLine(cs[k])
    ensures DollarMatches(Concat(DollarItems(cs))) == seq(|cs|, k requires 0 <= k < |cs| => FirstLine(cs[k]))
  {
    DollarRoundTripFrom(cs, 0);
    assert DollarItems(cs)[0..] == DollarItems(cs);
    assert DollarLines(cs, 0) == seq(|cs|, k requires 0 <= k < |cs| => FirstLine(cs[k]));
  }

  /** What reading back the `$` items from `j` on should give. */
  function DollarLines(cs: seq<bytes>, j: nat): seq<bytes>
    requires j <= |cs|
  {
    seq(|cs| - j, k requires 0 <= k < |cs| - j => FirstLine(cs[j + k]))
  }

  lemma DollarLinesCons(cs: seq<bytes>, j: nat)
    requires j < |cs|
    ensures DollarLines(cs, j) == [FirstLine(cs[j])] + DollarLines(cs, j + 1)
  {
    var all := DollarLines(cs, j);
    var tail := DollarLines(cs, j + 1);
    var got := [FirstLine(cs[j])] + tail;
    assert |got| == |all|;
    forall k | 0 <= k < |all| ensures got[k] == all[k] {
      if k > 0 {
        assert got[k] == tail[k - 1];
      }
    }
  }

  /** The `$` items from `j` on are item `j` followed by the items after it. */
  lemma DollarConcatFrom(cs: seq<bytes>, j: nat)
    requires j < |cs|
    ensures Concat(DollarItems(cs)[j..]) == DollarItem(cs[j]) + Concat(DollarItems(cs)[j + 1..])
  {
    var items := DollarItems(cs);
    assert items[j..] == [items[j]] + items[j + 1..];
    ConcatCons(items[j], items[j + 1..]);
  }

  lemma {:induction false} DollarRoundTripFrom(cs: seq<bytes>, j: nat)
    requires j <= |cs|
    requires forall k :: 0 <= k < |cs| ==> |cs[k]| > 0 && cs[k][0] != NL && NoDollarLine(cs[k])
    ensures DollarScan(Concat(DollarItems(cs)[j..]), true) == DollarLines(cs, j)
    decreases |cs| - j
  {
    if j < |cs| {
      DollarRoundTripFrom(cs, j + 1);
      DollarConcatFrom(cs, j);
      DollarScanItem(cs[j], Concat(DollarItems(cs)[j + 1..]));
      DollarLinesCons(cs, j);
    } else {
      assert DollarItems(cs)[j..] == [];
    }
  }

  /** Single-line contents come back exactly. */
  lemma DollarRoundTripSingleLine(cs: seq<bytes>)
    requires forall k :: 0 <= k < |cs| ==> |cs[k]| > 0 && NL !in cs[k]
    ensures DollarMatches(Concat(DollarItems(cs))) == cs
  {
    DollarRoundTrip(cs);
  }
}
