/**
 File names, `<n>.db`, and the order in which recovery replays the stable files.
 */
module FileNames {
  import opened Layout
  import opened Recovery
  import opened Sorting

  function Digit(d: nat): (c: char)
    requires d < 10
    ensures '0' <= c <= '9' && c as int == '0' as int + d
  {
    '0' + d as char
  }

  /** `std::to_string` */
  function Decimal(n: nat): (s: string)
    ensures s != []
    ensures forall i | 0 <= i < |s| :: '0' <= s[i] <= '9'
  {
    if n < 10 then [Digit(n)] else Decimal(n / 10) + [Digit(n % 10)]
  }

  function FileName(n: nat): (s: string)
  {
    Decimal(n) + ".db"
  }

  predicate IsDigit(c: char)
  {
    '0' <= c <= '9'
  }

  /** The length of the run of digits a name starts with. */
  function DigitRun(s: string): (n: nat)
    ensures n <= |s|
    ensures forall i | 0 <= i < n :: IsDigit(s[i])
    ensures n < |s| ==> !IsDigit(s[n])
  {
    if s == [] || !IsDigit(s[0]) then 0 else 1 + DigitRun(s[1..])
  }

  function Number(s: string): (n: nat)
    requires forall i | 0 <= i < |s| :: IsDigit(s[i])
  {
    if s == [] then 0 else
    assert IsDigit(s[|s| - 1]);
    Number(s[..|s| - 1]) * 10 + (s[|s| - 1] as int - '0' as int)
  }

  /** `std::stoul` on a file name: the number its leading digits spell, or an exception. */
  function Stoul(s: string): (r: Option<nat>)
  {
    var n := DigitRun(s);
    if n == 0 then None else Some(Number(s[..n]))
  }

  lemma {:induction false} NumberOfDecimal(n: nat)
    ensures Number(Decimal(n)) == n
  {
    if n >= 10 {
      NumberOfDecimal(n / 10);
      var s := Decimal(n);
      assert s[..|s| - 1] == Decimal(n / 10);
    } else {
      assert [Digit(n)][..0] == [];
    }
  }

  lemma {:induction false} DigitRunOf(d: string, rest: string)
    requires forall i | 0 <= i < |d| :: IsDigit(d[i])
    requires rest != [] && !IsDigit(rest[0])
    ensures DigitRun(d + rest) == |d|
  {
    if d == [] {
      assert d + rest == rest;
    } else {
      assert (d + rest)[0] == d[0] && (d + rest)[1..] == d[1..] + rest;
      DigitRunOf(d[1..], rest);
    }
  }

  /** Parsing a file name gives back its number, so different files have different names. */
  lemma ParseFileName(n: nat)
    ensures Stoul(FileName(n)) == Some(n)
    ensures FileName(n)[DigitRun(FileName(n))..] == ".db"
  {
    DigitRunOf(Decimal(n), ".db");
    assert FileName(n)[..|Decimal(n)|] == Decimal(n);
    NumberOfDecimal(n);
  }

  // ---------------------------------------------------------------- string order

  /** `operator<` of `std::string`. */
  predicate Less(a: string, b: string)
  {
    if b == [] then false
    else if a == [] then true
    else a[0] < b[0] || (a[0] == b[0] && Less(a[1..], b[1..]))
  }

  /** It is decided by the first difference, or by the length if one string begins with the other. */
  lemma {:induction false} LessExact(a: string, b: string, i: nat)
    requires i <= |a| && i <= |b| && a[..i] == b[..i]
    requires i < |a| && i < |b| ==> a[i] != b[i]
    ensures Less(a, b) <==> i < |b| && (i == |a| || a[i] < b[i])
  {
    if i > 0 {
      assert a[..i][0] == a[0] && b[..i][0] == b[0];
      assert a[1..][..i - 1] == a[..i][1..] == b[..i][1..] == b[1..][..i - 1];
      LessExact(a[1..], b[1..], i - 1);
    }
  }

  lemma {:induction false} LessTransitive(a: string, b: string, c: string)
    requires Less(a, b) && Less(b, c)
    ensures Less(a, c)
  {
    if a != [] && a[0] == b[0] == c[0] {
      LessTransitive(a[1..], b[1..], c[1..]);
    }
  }

  lemma {:induction false} LessTotal(a: string, b: string)
    ensures a == b || Less(a, b) || Less(b, a)
  {
    if a != [] && b != [] && a[0] == b[0] {
      LessTotal(a[1..], b[1..]);
      assert a == [a[0]] + a[1..] && b == [b[0]] + b[1..];
    }
  }

  lemma {:induction false} LessIrreflexive(a: string, b: string)
    requires Less(a, b)
    ensures !Less(b, a)
  {
    if a != [] && a[0] == b[0] {
      LessIrreflexive(a[1..], b[1..]);
    }
  }

  /** Strings of equal length compare by their first difference, whatever follows. */
  lemma {:induction false} LessAppend(a: string, b: string, c: string, d: string)
    requires |a| == |b| && a != b
    ensures Less(a + c, b + d) <==> Less(a, b)
  {
    var l, r := a + c, b + d;
    assert l[0] == a[0] && r[0] == b[0];
    if a[0] == b[0] {
      assert l[1..] == a[1..] + c && r[1..] == b[1..] + d;
      assert a == [a[0]] + a[1..] && b == [b[0]] + b[1..];
      LessAppend(a[1..], b[1..], c, d);
    }
  }

  lemma LessLast(a: string, c: char, d: char)
    requires c < d
    ensures Less(a + [c], a + [d])
    decreases |a|
  {
    var l, r := a + [c], a + [d];
    if a != [] {
      assert l[0] == a[0] == r[0];
      assert l[1..] == a[1..] + [c] && r[1..] == a[1..] + [d];
      LessLast(a[1..], c, d);
    }
  }

  /** Numbers with equally many digits compare like their decimal forms. */
  lemma {:induction false} DecimalOrder(m: nat, n: nat)
    requires m < n && |Decimal(m)| == |Decimal(n)|
    ensures Less(Decimal(m), Decimal(n))
  {
    if n >= 10 {
      assert m >= 10;
      var p, q := Decimal(m / 10), Decimal(n / 10);
      if m / 10 == n / 10 {
        assert m % 10 < n % 10;
        LessLast(p, Digit(m % 10), Digit(n % 10));
      } else {
        DecimalOrder(m / 10, n / 10);
        if p == q {
          NumberOfDecimal(m / 10);
          NumberOfDecimal(n / 10);
          assert false;
        }
        LessAppend(p, q, [Digit(m % 10)], [Digit(n % 10)]);
      }
    }
  }

  /** String order of names agrees with numeric order for ids with equal digit counts. */
  lemma NameOrder(m: nat, n: nat)
    requires |Decimal(m)| == |Decimal(n)|
    ensures Less(FileName(m), FileName(n)) <==> m < n
  {
    NumberOfDecimal(m);
    NumberOfDecimal(n);
    if m == n {
      if Less(FileName(m), FileName(n)) {
        LessIrreflexive(FileName(m), FileName(n));
      }
    } else {
      LessAppend(Decimal(m), Decimal(n), ".db", ".db");
      if m < n {
        DecimalOrder(m, n);
      } else {
        DecimalOrder(n, m);
        LessIrreflexive(Decimal(n), Decimal(m));
      }
    }
  }

  lemma OneDigit(n: nat)
    ensures |Decimal(n)| == 1 <==> n < 10
  {
  }

  /** File 10 comes before file 2. */
  lemma TenBeforeTwo()
    ensures Less(FileName(10), FileName(2))
  {
    assert Decimal(1) == [Digit(1)];
    assert Decimal(10) == Decimal(1) + [Digit(0)];
    assert FileName(10)[0] == '1';
    assert FileName(2)[0] == '2';
  }

  // ---------------------------------------------------------------- the sort

  /** The comparison of the code: by name, as strings. */
  predicate ByName(a: nat, b: nat)
  {
    Less(FileName(a), FileName(b))
  }

  lemma NamesOrdered()
    ensures StrictOrder(ByName)
  {
    hide FileName, Less;
    forall a, b | ByName(a, b) ensures !ByName(b, a) {
      LessIrreflexive(FileName(a), FileName(b));
    }
    forall a, b | a != b ensures ByName(a, b) || ByName(b, a) {
      ParseFileName(a);
      ParseFileName(b);
      LessTotal(FileName(a), FileName(b));
    }
    forall a, b, c | ByName(a, b) && ByName(b, c) ensures ByName(a, c) {
      LessTransitive(FileName(a), FileName(b), FileName(c));
    }
  }

  /** The replay order of the code. */
  function SortByName(listing: seq<nat>): (r: seq<nat>)
  {
    Sort(ByName, listing)
  }

  /** Sorting a listing without duplicates by name gives a name-sorted order of the same files. */
  lemma SortSortsNames(listing: seq<nat>)
    requires NoDup(listing)
    ensures Sorted(ByName, SortByName(listing))
    ensures IdsOf(SortByName(listing)) == IdsOf(listing)
  {
    NamesOrdered();
    SortSorts(ByName, listing);
  }

  lemma FewNamesAscend(order: seq<nat>, n: nat)
    requires Sorted(ByName, order) && IdsOf(order) == UpTo(n) && n <= 10
    ensures order == Ascending(n)
  {
    hide FileName, Decimal;
    forall i, j | 0 <= i < j < |order| ensures order[i] < order[j] {
      assert order[i] in IdsOf(order) && order[j] in IdsOf(order);
      OneDigit(order[i]);
      OneDigit(order[j]);
      NameOrder(order[i], order[j]);
    }
    IncreasingIsAscending(order, n);
  }

  lemma ManyNamesDoNot(n: nat)
    requires n > 10
    ensures !Sorted(ByName, Ascending(n))
  {
    hide FileName, Decimal;
    TenBeforeTwo();
    LessIrreflexive(FileName(10), FileName(2));
    assert Ascending(n)[2] == 2 && Ascending(n)[10] == 10;
  }

  /** The exact condition on the replay order as written: sorting a listing of the files 0 to n-1 by name gives
      oldest first if and only if there are at most ten of them. */
  lemma NameSortIsOldestFirst(listing: seq<nat>, n: nat)
    requires NoDup(listing) && IdsOf(listing) == UpTo(n)
    ensures SortByName(listing) == Ascending(n) <==> n <= 10
  {
    hide SortByName, Sorted, IdsOf, NoDup;
    SortSortsNames(listing);
    if n <= 10 {
      FewNamesAscend(SortByName(listing), n);
    } else {
      ManyNamesDoNot(n);
    }
  }
}
