/**
 * The numeric key a box-office string is sorted by: drop the first '$',
 * drop every ',', read the rest as a number.
 */
module BoxOffice {
  import opened Wrappers
  import opened Decimal
  import opened Sequences

  /** `s.indexOf(c)` when c occurs in s: the position of its first occurrence. */
  function IndexOf(s: string, c: char): (i: nat)
    requires c in s
    ensures i < |s| && s[i] == c && c !in s[..i]
  {
    if s[0] == c then 0
    else
      var i := IndexOf(s[1..], c);
      assert s[..i + 1] == [s[0]] + s[1..][..i];
      i + 1
  }

  /** `s.replace(c, '')` with a one-character pattern: only the first occurrence goes. */
  function RemoveFirst(s: string, c: char): (r: string)
    ensures c !in s ==> r == s
    ensures c in s ==> |r| == |s| - 1 && r[..IndexOf(s, c)] == s[..IndexOf(s, c)] && c !in r[..IndexOf(s, c)]
  {
    if c in s then
      var i := IndexOf(s, c);
      var r := s[..i] + s[i + 1..];
      assert r[..i] == s[..i];
      r
    else s
  }

  /** Putting c back where its first occurrence was restores s: nothing but that occurrence is removed. */
  lemma RemoveFirstReinsert(s: string, c: char)
    requires c in s
    ensures var r, i := RemoveFirst(s, c), IndexOf(s, c);
      s == r[..i] + [c] + r[i..]
  {
    var i := IndexOf(s, c);
    var before, after := s[..i], s[i + 1..];
    assert s == before + [c] + after;
    Reinsert(before, after, c);
  }

  lemma Reinsert(before: string, after: string, c: char)
    ensures var r := before + after;
      r[..|before|] + [c] + r[|before|..] == before + [c] + after
  {
    var r := before + after;
    assert r[..|before|] == before && r[|before|..] == after;
  }

  /** The characters other than c. */
  function Other(c: char): char -> bool
  {
    (x: char) => x != c
  }

  /** `s.replace(/c/g, '')`: every occurrence of c goes, the other characters keep their order. */
  function RemoveAll(s: string, c: char): (r: string)
    ensures c !in r
    ensures c !in s ==> r == s
    ensures r == Select(s, Other(c))
  {
    if s == [] then []
    else
      assert s == [s[0]] + s[1..];
      (if s[0] == c then [] else [s[0]]) + RemoveAll(s[1..], c)
  }

  lemma {:induction false} RemoveAllAppend(a: string, b: string, c: char)
    ensures RemoveAll(a + b, c) == RemoveAll(a, c) + RemoveAll(b, c)
    decreases |a|
  {
    if a == [] {
      assert a + b == b;
    } else {
      assert (a + b)[1..] == a[1..] + b;
      RemoveAllAppend(a[1..], b, c);
    }
  }

  /** The sort key of a box-office string; None where `parseFloat` would give NaN on a malformed string. */
  function BoxOfficeKey(s: string): Option<nat>
  {
    ParseNat(RemoveAll(RemoveFirst(s, '$'), ','))
  }

  /**
   * How the key reads a string: a leading '$' and every ',' are skipped, and
   * what remains must be a non-empty run of digits; a plain run of digits is
   * read as it stands.
   */
  lemma KeyReading(s: string)
    ensures '$' !in s && ',' !in s ==> BoxOfficeKey(s) == ParseNat(s)
    ensures s != [] && s[0] == '$' ==> BoxOfficeKey(s) == ParseNat(RemoveAll(s[1..], ','))
  {
  }

  /** Strings with no digits to read have no key (where `parseFloat` gives NaN). */
  lemma MalformedKeyExample()
    ensures BoxOfficeKey("") == None
    ensures BoxOfficeKey("$") == None
    ensures BoxOfficeKey("$,") == None
  {
    assert RemoveFirst("$", '$') == "";
    assert RemoveFirst("$,", '$') == ",";
    assert RemoveAll(",", ',') == "";
  }

  /** Three digits, zero-padded: one thousands group. */
  function Group3(m: nat): (r: string)
    requires m < 1000
    ensures |r| == 3 && AllDigits(r) && ',' !in r
    ensures DigitsValue(r) == m
  {
    var r := [DigitChar(m / 100), DigitChar(m / 10 % 10), DigitChar(m % 10)];
    ThreeDigits(r);
    SplitHundreds(m);
    r
  }

  lemma ThreeDigits(r: string)
    requires |r| == 3 && AllDigits(r)
    ensures DigitsValue(r) == DigitValue(r[0]) * 100 + DigitValue(r[1]) * 10 + DigitValue(r[2])
  {
    var r1, r2 := r[..1], r[..2];
    assert r1[..0] == [] && r2[..1] == r1 && r[..2] == r2;
    assert DigitsValue(r1) == DigitValue(r[0]);
    assert DigitsValue(r2) == DigitValue(r[0]) * 10 + DigitValue(r[1]);
    assert DigitsValue(r) == DigitsValue(r2) * 10 + DigitValue(r[2]);
  }

  lemma SplitHundreds(m: nat)
    requires m < 1000
    ensures m / 100 * 100 + m / 10 % 10 * 10 + m % 10 == m
  {
  }

  /** n written with ',' between groups of three digits, as the catalog writes amounts. */
  function Grouped(n: nat): string
    decreases n
  {
    if n < 1000 then NatToString(n) else Grouped(n / 1000) + [','] + Group3(n % 1000)
  }

  /** Removing the commas of "head,ggg" leaves the digits of head followed by ggg. */
  lemma RemoveCommasJoin(head: string, g: string)
    requires ',' !in g
    ensures RemoveAll(head + [','] + g, ',') == RemoveAll(head, ',') + g
  {
    var comma: string := [','];
    CommaRemoved();
    RemoveAllAppend(head, comma, ',');
    RemoveAllAppend(head + comma, g, ',');
    assert RemoveAll(head + comma, ',') == RemoveAll(head, ',');
  }

  lemma CommaRemoved()
    ensures RemoveAll([','], ',') == []
  {
    assert [','][1..] == [];
  }

  lemma {:induction false} GroupedDigits(n: nat)
    ensures var d := RemoveAll(Grouped(n), ',');
      d != [] && AllDigits(d) && DigitsValue(d) == n
    decreases n
  {
    if n < 1000 {
    } else {
      var g := Group3(n % 1000);
      GroupedDigits(n / 1000);
      var h := RemoveAll(Grouped(n / 1000), ',');
      RemoveCommasJoin(Grouped(n / 1000), g);
      DigitsValueAppend(h, g);
      ThousandsSplit(n, DigitsValue(h), DigitsValue(g), Pow10(|g|));
    }
  }

  lemma ThousandsSplit(n: nat, hi: nat, lo: nat, p: nat)
    requires hi == n / 1000 && lo == n % 1000 && p == Pow10(3)
    ensures hi * p + lo == n
  {
    assert p == 1000;
  }

  /** A well-formed amount "$d,ddd,..." has exactly its number as key. */
  lemma FormattedKey(n: nat)
    ensures BoxOfficeKey(['$'] + Grouped(n)) == Some(n)
  {
    var g := Grouped(n);
    var s := ['$'] + g;
    assert s[0] == '$';
    assert IndexOf(s, '$') == 0;
    assert s[..0] + s[1..] == g;
    assert RemoveFirst(s, '$') == g;
    GroupedDigits(n);
  }

  lemma GroupedExampleBillions()
    ensures Grouped(2847000000) == "2,847,000,000"
  {
    GroupedExampleMillions();
    assert Group3(0) == "000";
    assert Grouped(2847000000) == Grouped(2847000) + [','] + Group3(0);
  }

  lemma GroupedExampleMillions()
    ensures Grouped(2847000) == "2,847,000"
  {
    GroupedExampleThousands();
    assert Group3(0) == "000";
    assert Grouped(2847000) == Grouped(2847) + [','] + Group3(0);
  }

  lemma GroupedExampleThousands()
    ensures Grouped(2847) == "2,847"
  {
    assert Grouped(2) == "2";
    assert Group3(847) == "847";
  }

  lemma GroupedExampleOneMillion()
    ensures Grouped(1000000) == "1,000,000"
  {
    assert Group3(0) == "000";
    assert Grouped(1) == "1";
    assert Grouped(1000) == "1,000";
    assert Grouped(1000000) == Grouped(1000) + [','] + Group3(0);
  }

  lemma GroupedExampleNineDigits()
    ensures Grouped(956019788) == "956,019,788"
  {
    GroupedExampleSixDigits();
    assert Group3(788) == "788";
    assert Grouped(956019788) == Grouped(956019) + [','] + Group3(788);
  }

  lemma GroupedExampleSixDigits()
    ensures Grouped(956019) == "956,019"
  {
    GroupedExampleHundreds();
    assert Group3(19) == "019";
    assert Grouped(956019) == Grouped(956) + [','] + Group3(19);
  }

  lemma GroupedExampleHundreds()
    ensures Grouped(956) == "956"
  {
    assert NatToString(9) == "9";
    assert NatToString(95) == NatToString(9) + ['5'];
  }

  /** Three amounts from the catalog read as their exact numbers. */
  lemma KeyExample()
    ensures BoxOfficeKey("$2,847,000,000") == Some(2847000000)
    ensures BoxOfficeKey("$1,000,000") == Some(1000000)
    ensures BoxOfficeKey("$956,019,788") == Some(956019788)
  {
    KeyExampleBillions();
    KeyExampleOneMillion();
    KeyExampleNineDigits();
  }

  lemma KeyExampleBillions()
    ensures BoxOfficeKey("$2,847,000,000") == Some(2847000000)
  {
    GroupedExampleBillions();
    FormattedKey(2847000000);
  }

  lemma KeyExampleOneMillion()
    ensures BoxOfficeKey("$1,000,000") == Some(1000000)
  {
    GroupedExampleOneMillion();
    FormattedKey(1000000);
  }

  lemma KeyExampleNineDigits()
    ensures BoxOfficeKey("$956,019,788") == Some(956019788)
  {
    GroupedExampleNineDigits();
    FormattedKey(956019788);
  }
}
