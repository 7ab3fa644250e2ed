/**
  `writeOpeningHeader` of updateHostsFile.py as a pure function: the banner,
  the static host entries, the optional preamble and then the body of rules,
  unchanged. The date, the platform test, the machine's host name and the
  output location are parameters, since the source asks the environment for
  them.
*/
module Header {
  import opened Outcomes
  import opened Text

  // ---------------------------------------------------------------------
  // `"{:,}".format(n)`: decimal digits grouped in threes by commas.

  /** The character of a decimal digit. */
  function DigitChar(d: nat): char
    requires d < 10
  {
    ('0' as int + d) as char
  }

  /** The value of a decimal digit character. */
  function DigitValue(c: char): nat
    requires IsDigit(c)
  {
    c as int - '0' as int
  }

  /** `str(n)` for a non-negative `n`: no leading zeros, `"0"` for zero. */
  function Decimal(n: nat): (s: string)
    ensures |s| > 0
    ensures forall k :: 0 <= k < |s| ==> IsDigit(s[k])
    ensures |s| > 1 ==> s[0] != '0'
    decreases n
  {
    if n < 10 then [DigitChar(n)] else Decimal(n / 10) + [DigitChar(n % 10)]
  }

  /** The number a string of decimal digits denotes. */
  function DecimalValue(s: string): nat
    requires forall k :: 0 <= k < |s| ==> IsDigit(s[k])
    decreases |s|
  {
    if |s| == 0 then 0 else DecimalValue(s[..|s| - 1]) * 10 + DigitValue(s[|s| - 1])
  }

  /** Reading the digits back gives the number. */
  lemma {:induction false} DecimalRoundTrip(n: nat)
    ensures DecimalValue(Decimal(n)) == n
    decreases n
  {
    if n >= 10 {
      DecimalRoundTrip(n / 10);
      var s := Decimal(n);
      assert s[..|s| - 1] == Decimal(n / 10);
    }
  }

  /** Commas inserted between groups of three digits, counted from the right. */
  function Group(d: string): (g: string)
    ensures |d| <= |g| && (|d| > 0 ==> g[0] == d[0])
    decreases |d|
  {
    if |d| <= 3 then d else Group(d[..|d| - 3]) + "," + d[|d| - 3..]
  }

  /** Every character that is not a comma. */
  function Ungroup(g: string): (d: string)
    decreases |g|
  {
    if |g| == 0 then ""
    else Ungroup(g[..|g| - 1]) + (if g[|g| - 1] == ',' then "" else [g[|g| - 1]])
  }

  /**
    Grouping puts a comma exactly at every fourth place from the right and
    leaves digits everywhere else, so the number never starts with a comma.
  */
  lemma {:induction false} GroupCommas(d: string)
    requires forall k :: 0 <= k < |d| ==> IsDigit(d[k])
    ensures forall k :: 0 <= k < |Group(d)| ==>
      && (Group(d)[k] == ',' <==> (|Group(d)| - k - 1) % 4 == 3)
      && (Group(d)[k] == ',' || IsDigit(Group(d)[k]))
    decreases |d|
  {
    var g := Group(d);
    if |d| <= 3 {
      assert g == d;
      forall k | 0 <= k < |g|
        ensures (g[k] == ',' <==> (|g| - k - 1) % 4 == 3) && (g[k] == ',' || IsDigit(g[k]))
      {
        var m := |g| - k - 1;
        assert 0 <= m < 3;
        assert m % 4 == m;
      }
    } else {
      var last := d[|d| - 3..];
      GroupCommas(d[..|d| - 3]);
      var h := Group(d[..|d| - 3]);
      assert g == h + "," + last;
      forall k | 0 <= k < |g|
        ensures (g[k] == ',' <==> (|g| - k - 1) % 4 == 3) && (g[k] == ',' || IsDigit(g[k]))
      {
        var m := |g| - k - 1;
        if k < |h| {
          assert g[k] == h[k];
          assert (h[k] == ',' <==> (|h| - k - 1) % 4 == 3) && (h[k] == ',' || IsDigit(h[k]));
          assert m == (|h| - k - 1) + 4;
          assert m % 4 == (|h| - k - 1) % 4;
        } else if k == |h| {
          assert g[k] == ',' && m == 3;
        } else {
          assert g[k] == last[k - |h| - 1];
          assert IsDigit(d[|d| - 3 + (k - |h| - 1)]);
          assert 0 <= m < 3;
          assert m % 4 == m;
        }
      }
    }
  }

  /** Removing the commas gives the digits back. */
  lemma {:induction false} GroupUngroup(d: string)
    requires forall k :: 0 <= k < |d| ==> IsDigit(d[k])
    ensures Ungroup(Group(d)) == d
    decreases |d|
  {
    if |d| <= 3 {
      UngroupDigits(d);
    } else {
      var pre := d[..|d| - 3];
      var last := d[|d| - 3..];
      GroupUngroup(pre);
      GroupStep(d);
      UngroupAppend(Group(pre), [','] + last);
      UngroupCons(',', last);
      UngroupDigits(last);
      assert pre + last == d;
    }
  }

  /** One step of grouping: the last three digits after a comma. */
  lemma GroupStep(d: string)
    requires |d| > 3
    ensures Group(d) == Group(d[..|d| - 3]) + ([','] + d[|d| - 3..])
  {
  }

  /** A string of digits has no commas to remove. */
  lemma {:induction false} UngroupDigits(d: string)
    requires forall k :: 0 <= k < |d| ==> d[k] != ','
    ensures Ungroup(d) == d
    decreases |d|
  {
    if |d| > 0 {
      UngroupDigits(d[..|d| - 1]);
    }
  }

  /** Removing commas works piecewise. */
  lemma {:induction false} UngroupAppend(a: string, b: string)
    ensures Ungroup(a + b) == Ungroup(a) + Ungroup(b)
    decreases |b|
  {
    if |b| == 0 {
      assert a + b == a;
    } else {
      var b' := b[..|b| - 1];
      assert (a + b)[..|a + b| - 1] == a + b';
      UngroupAppend(a, b');
    }
  }

  /** A leading comma is dropped. */
  lemma {:induction false} UngroupCons(c: char, s: string)
    requires c == ','
    ensures Ungroup([c] + s) == Ungroup(s)
  {
    UngroupAppend([c], s);
    assert [c][..0] == [];
  }

  /** `"{:,}".format(n)`. */
  function FormatThousands(n: int): (s: string)
    ensures |s| > 0
  {
    if n < 0 then "-" + Group(Decimal(-n)) else Group(Decimal(n))
  }

  /** Every character is a decimal digit. */
  predicate AllDigits(d: string) {
    forall k :: 0 <= k < |d| ==> IsDigit(d[k])
  }

  /** Reads back digits grouped by commas. */
  function ParseUnsigned(g: string): Option<nat> {
    var d := Ungroup(g);
    if |d| > 0 && AllDigits(d) then Some(DecimalValue(d)) else None
  }

  /** Reads back a number written by `FormatThousands`. */
  function ParseThousands(s: string): Option<int> {
    if |s| > 0 && s[0] == '-' then
      match ParseUnsigned(s[1..])
        case None => None
        case Some(v) => Some(0 - v as int)
    else
      match ParseUnsigned(s)
        case None => None
        case Some(v) => Some(v)
  }

  /** Grouped digits read back to their number. */
  lemma ParseUnsignedGroup(m: nat)
    ensures ParseUnsigned(Group(Decimal(m))) == Some(m)
  {
    GroupUngroup(Decimal(m));
    DecimalRoundTrip(m);
  }

  /** The count line of the header can be read back to the count. */
  lemma FormatThousandsRoundTrip(n: int)
    ensures ParseThousands(FormatThousands(n)) == Some(n)
  {
    var m := if n < 0 then -n else n;
    var g := Group(Decimal(m));
    ParseUnsignedGroup(m);
    assert IsDigit(g[0]);
    if n < 0 {
      assert FormatThousands(n) == "-" + g;
      assert ("-" + g)[1..] == g;
    } else {
      assert FormatThousands(n) == g;
    }
  }

  /** The count is written with a comma before every group of three digits. */
  lemma FormatThousandsExample()
    ensures FormatThousands(1234567) == "1,234,567"
  {
    var d := Decimal(1234567);
    DecimalSteps();
    assert d == "1234567";
    GroupStep(d);
    assert d[..4] == "1234" && d[4..] == "567";
    GroupStep("1234");
    assert "1234"[..1] == "1" && "1234"[1..] == "234";
  }

  /** The digits of 1234567, one division at a time. */
  lemma DecimalSteps()
    ensures Decimal(1234567) == "1234567"
  {
    assert Decimal(1) == "1";
    assert Decimal(12) == Decimal(1) + ['2'];
    assert Decimal(123) == Decimal(12) + ['3'];
    assert Decimal(1234) == Decimal(123) + ['4'];
    assert Decimal(12345) == Decimal(1234) + ['5'];
    assert Decimal(123456) == Decimal(12345) + ['6'];
    assert Decimal(1234567) == Decimal(123456) + ['7'];
  }

  // ---------------------------------------------------------------------
  // The header.

  /** Everything the header depends on besides the body. */
  datatype HeaderInfo = HeaderInfo(
    date: string,               // time.strftime("%B %d %Y", time.gmtime())
    extensions: seq<string>,
    numberOfRules: int,
    location: string,           // os.path.join(outputsubfolder, "")
    skipStaticHosts: bool,
    isLinux: bool,              // platform.system() == "Linux"
    machineHostname: string,    // socket.gethostname()
    preamble: Option<string>)   // the contents of `myhosts`, if that file exists

  const RawUrl: string := "https://raw.githubusercontent.com/StevenBlack/hosts/master/"

  function ExtensionsLine(extensions: seq<string>): string {
    "# Extensions added to this file: " + JoinWith(", ", extensions) + "\n"
  }

  function CountLine(numberOfRules: int): string {
    "# Number of unique domains: " + FormatThousands(numberOfRules) + "\n#\n"
  }

  /** The banner, ending with a blank line. */
  function Banner(info: HeaderInfo): seq<string> {
    [ "# This hosts file is a merged collection of hosts from reputable sources,\n",
      "# with a dash of crowd sourcing via Github\n#\n",
      "# Date: " + info.date + "\n" ]
    + (if info.extensions != [] then [ExtensionsLine(info.extensions)] else [])
    + [ CountLine(info.numberOfRules),
        "# Fetch the latest version of this file: " + RawUrl + info.location + "hosts\n",
        "# Project home page: https://github.com/StevenBlack/hosts\n#\n",
        "# ===============================================================\n",
        "\n" ]
  }

  /** The seven fixed entries. */
  const StaticEntries: seq<string> := [
    "127.0.0.1 localhost\n",
    "127.0.0.1 localhost.localdomain\n",
    "127.0.0.1 local\n",
    "255.255.255.255 broadcasthost\n",
    "::1 localhost\n",
    "fe80::1%lo0 localhost\n",
    "0.0.0.0 0.0.0.0\n"]

  /** The two entries naming the machine itself, written on Linux only. */
  function LinuxEntries(machineHostname: string): seq<string> {
    ["127.0.1.1 " + machineHostname + "\n", "127.0.0.53 " + machineHostname + "\n"]
  }

  /** The static block, ending with a blank line, unless it is skipped. */
  function StaticBlock(info: HeaderInfo): seq<string> {
    if info.skipStaticHosts then []
    else StaticEntries + (if info.isLinux then LinuxEntries(info.machineHostname) else []) + ["\n"]
  }

  /** The preamble file's contents, if there is one. */
  function PreambleBlock(info: HeaderInfo): seq<string> {
    match info.preamble
      case None => []
      case Some(text) => [text]
  }

  /** The pieces written before the body, in order. */
  function HeaderPieces(info: HeaderInfo): seq<string> {
    Banner(info) + StaticBlock(info) + PreambleBlock(info)
  }

  /** `writeOpeningHeader`: the header pieces, then the body unchanged. */
  function WriteOpeningHeader(info: HeaderInfo, body: string): (file: string)
    ensures |body| <= |file| && file[|file| - |body|..] == body
    ensures file[..|file| - |body|] == Concat(HeaderPieces(info))
  {
    var header := Concat(HeaderPieces(info));
    AppendParts(header, body);
    header + body
  }

  /**
    The extensions setting adds exactly one line to the banner, fourth,
    and only when the list is non-empty.
  */
  lemma ExtensionsLineInserted(info: HeaderInfo)
    ensures var plain := Banner(info.(extensions := []));
      |plain| == 8 &&
      (info.extensions == [] ==> Banner(info) == plain) &&
      (info.extensions != [] ==> Banner(info) == plain[..3] + [ExtensionsLine(info.extensions)] + plain[3..])
  {
  }

  /**
    The static block is empty when skipped; otherwise it is the seven fixed
    entries, then on Linux the two machine entries, then a blank line.
  */
  lemma LinuxEntriesInserted(info: HeaderInfo)
    ensures info.skipStaticHosts ==> StaticBlock(info) == []
    ensures var plain := StaticBlock(info.(isLinux := false));
      !info.skipStaticHosts ==>
        && plain == StaticEntries + ["\n"]
        && (info.isLinux ==> StaticBlock(info) == plain[..7] + LinuxEntries(info.machineHostname) + plain[7..])
        && (!info.isLinux ==> StaticBlock(info) == plain)
  {
  }

  /** The file is the banner, the static block, the preamble and the body, in that order. */
  lemma HeaderOrder(info: HeaderInfo, body: string)
    ensures WriteOpeningHeader(info, body) ==
      Concat(Banner(info)) + Concat(StaticBlock(info))
      + (if info.preamble.Some? then info.preamble.value else "") + body
  {
    ConcatAppend(Banner(info), StaticBlock(info));
    ConcatAppend(Banner(info) + StaticBlock(info), PreambleBlock(info));
    if info.preamble.Some? {
      assert Concat(PreambleBlock(info)) == info.preamble.value + Concat([]);
    }
  }

  /** Text that ends in a newline splits into lines at its end. */
  lemma {:induction false} ReadLinesAppend(a: string, b: string)
    requires a == [] || a[|a| - 1] == '\n'
    ensures ReadLines(a + b) == ReadLines(a) + ReadLines(b)
    decreases |a|
  {
    if |a| == 0 {
      assert a + b == b;
    } else {
      var s := a + b;
      var j := Span(a, 0, NotNewline);
      assert j < |a|;
      assert s[j] == '\n';
      SpanOfPrefix(s, j, 0, NotNewline);
      SpanOfPrefix(a, j, 0, NotNewline);
      assert s[..j] == a[..j];
      assert s[j + 1..] == a[j + 1..] + b;
      assert s[..j + 1] == a[..j + 1];
      ReadLinesAppend(a[j + 1..], b);
    }
  }

  /** The text of non-empty pieces ends as the last piece does. */
  lemma ConcatEndsWithLast(xs: seq<string>)
    requires |xs| > 0 && |xs[|xs| - 1]| > 0
    ensures var c := Concat(xs); |c| > 0 && c[|c| - 1] == xs[|xs| - 1][|xs[|xs| - 1]| - 1]
  {
    var n := |xs| - 1;
    ConcatAppend(xs[..n], [xs[n]]);
    assert xs[..n] + [xs[n]] == xs;
    assert Concat([xs[n]]) == xs[n] + Concat([]);
  }

  /**
    When the preamble is absent or ends with a newline, the file's lines are
    the header's lines followed by the body's lines, unchanged.
  */
  lemma BodyLinesUnchanged(info: HeaderInfo, body: string)
    requires info.preamble.Some? ==> |info.preamble.value| > 0 && info.preamble.value[|info.preamble.value| - 1] == '\n'
    ensures ReadLines(WriteOpeningHeader(info, body)) == ReadLines(Concat(HeaderPieces(info))) + ReadLines(body)
  {
    var pieces := HeaderPieces(info);
    var n := |pieces| - 1;
    match info.preamble {
      case Some(text) =>
        assert pieces[n] == text;
      case None =>
        var b := Banner(info);
        var st := StaticBlock(info);
        assert pieces == b + st;
        if info.skipStaticHosts {
          assert pieces[n] == b[|b| - 1] == "\n";
        } else {
          assert pieces[n] == st[|st| - 1] == "\n";
        }
    }
    ConcatEndsWithLast(pieces);
    ReadLinesAppend(Concat(pieces), body);
  }
}
