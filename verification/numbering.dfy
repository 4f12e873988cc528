/** The `{idx:03d}` naming every extractor uses, and why it keeps an
    archive's entries in ordinal order only up to 999 images. */
module Numbering {
  import opened Strings
  import opened Sorting
  import opened Paths

  function DigitChar(d: nat): (c: char)
    requires d < 10
    ensures '0' <= c <= '9'
  {
    ('0' as int + d) as char
  }

  /** `str(n)` for a non-negative integer: its decimal digits, no leading
      zero. */
  function Decimal(n: nat): (r: string)
    ensures 1 <= |r|
    ensures forall i :: 0 <= i < |r| ==> '0' <= r[i] <= '9'
    ensures |r| == 1 <==> n < 10
  {
    if n < 10 then [DigitChar(n)] else Decimal(n / 10) + [DigitChar(n % 10)]
  }

  /** `f"{n:03d}"`: the decimal digits, left-padded with '0' to width 3;
      wider numbers keep all their digits. */
  function Pad3(n: nat): (r: string)
    ensures 3 <= |r| && |Decimal(n)| <= |r|
  {
    var d := Decimal(n);
    if |d| < 3 then seq(3 - |d|, _ => '0') + d else d
  }

  /** Below 1000 the padded form is exactly the three decimal digits. */
  lemma ThreeDigits(n: nat)
    requires n < 1000
    ensures Pad3(n) == [DigitChar(n / 100), DigitChar(n / 10 % 10), DigitChar(n % 10)]
  {
    if n < 10 {
      assert Decimal(n) == [DigitChar(n)];
    } else if n < 100 {
      assert Decimal(n) == [DigitChar(n / 10)] + [DigitChar(n % 10)];
    } else {
      assert n / 10 / 10 == n / 100;
      assert Decimal(n / 10) == [DigitChar(n / 100)] + [DigitChar(n / 10 % 10)];
      assert Decimal(n) == Decimal(n / 10) + [DigitChar(n % 10)];
    }
  }

  lemma PlaceValues(n: nat)
    ensures n == 100 * (n / 100) + 10 * (n / 10 % 10) + n % 10
  {
    assert n / 10 / 10 == n / 100;
    assert n / 10 == 10 * (n / 10 / 10) + n / 10 % 10;
  }

  /** Two ordinals below 1000 give names whose order is the ordinals' order,
      whatever follows the three digits. */
  lemma {:induction false} PaddedBelow(i: nat, j: nat, x: string, y: string)
    requires i < j < 1000
    ensures Below(Pad3(i) + x, Pad3(j) + y) && Pad3(i) + x != Pad3(j) + y
  {
    ThreeDigits(i);
    ThreeDigits(j);
    PlaceValues(i);
    PlaceValues(j);
    var a, b := Pad3(i) + x, Pad3(j) + y;
    if i / 100 < j / 100 {
      BelowAt(a, b, 0);
    } else if i / 10 % 10 < j / 10 % 10 {
      assert a[..1] == b[..1];
      BelowAt(a, b, 1);
    } else {
      assert i / 100 == j / 100 && i / 10 % 10 == j / 10 % 10;
      assert a[..2] == b[..2];
      BelowAt(a, b, 2);
    }
  }

  /** The paths an extractor returns: image k (0-based) is written into
      `folder` as the padded ordinal k + 1 followed by `tails[k]`. */
  function Numbered(folder: Path, tails: seq<string>): (r: seq<Path>)
    ensures |r| == |tails|
  {
    seq(|tails|, k requires 0 <= k < |tails| => Join(folder, Pad3(k + 1) + tails[k]))
  }

  /** Two paths in the same folder are ordered as their names are. */
  lemma SameFolderBelow(folder: Path, a: string, b: string)
    ensures Below(Join(folder, a), Join(folder, b)) == Below(a, b)
    ensures Join(folder, a) == Join(folder, b) <==> a == b
  {
    assert Join(folder, a)[|folder| + 1..] == a;
    assert Join(folder, b)[|folder| + 1..] == b;
    BelowCommonPrefix(folder + "/", a, b);
    assert Join(folder, a) == (folder + "/") + a;
    assert Join(folder, b) == (folder + "/") + b;
  }

  /** Up to 999 images the names are distinct and ascending, so `sorted`
      returns them in the order they were extracted. */
  lemma {:induction false} NumberedInOrdinalOrder(folder: Path, tails: seq<string>)
    requires |tails| <= 999
    ensures StrictlySorted(Numbered(folder, tails))
    ensures Sort(Numbered(folder, tails)) == Numbered(folder, tails)
  {
    var r := Numbered(folder, tails);
    forall i, j | 0 <= i < j < |r|
      ensures Below(r[i], r[j]) && r[i] != r[j]
    {
      var a, b := Pad3(i + 1) + tails[i], Pad3(j + 1) + tails[j];
      PaddedBelow(i + 1, j + 1, tails[i], tails[j]);
      SameFolderBelow(folder, a, b);
      assert r[i] == Join(folder, a) && r[j] == Join(folder, b);
    }
    SortOfSorted(r);
  }

  /** `f"{1000:03d}"` has four digits. */
  lemma FourDigits()
    ensures Pad3(1000) == "1000"
    ensures Pad3(100) == "100" && Pad3(101) == "101"
  {
    assert Decimal(1) == "1";
    assert Decimal(10) == "10";
    assert Decimal(100) == "100";
    assert Decimal(1000) == "1000";
    ThreeDigits(100);
    ThreeDigits(101);
  }

  /** The fourth digit breaks the order: "1000.png" sorts strictly after
      "100.png", of which its name is an extension ... */
  lemma HundredBeforeThousand()
    ensures Below(Pad3(100) + ".png", Pad3(1000) + ".png")
    ensures !Below(Pad3(1000) + ".png", Pad3(100) + ".png")
  {
    FourDigits();
    var a, b := Pad3(100) + ".png", Pad3(1000) + ".png";
    assert a[..3] == "100" == b[..3];
    assert a[3] == '.' && b[3] == '0';
    BelowAt(a, b, 3);
  }

  /** ... and strictly before "101.png". */
  lemma ThousandBeforeHundredOne()
    ensures Below(Pad3(1000) + ".png", Pad3(101) + ".png")
    ensures !Below(Pad3(101) + ".png", Pad3(1000) + ".png")
  {
    FourDigits();
    var a, b := Pad3(1000) + ".png", Pad3(101) + ".png";
    assert a[..2] == "10" == b[..2];
    assert a[2] == '0' && b[2] == '1';
    BelowAt(a, b, 2);
  }

  /** The bound is exact: from 1000 images on, whatever the tails, the names
      are out of ordinal order (ordinal 1000 sorts before ordinal 101), so
      `sorted` moves some image away from its extraction position. */
  lemma {:induction false} OrdinalOrderNeedsAtMost999(folder: Path, tails: seq<string>)
    ensures Sorted(Numbered(folder, tails)) <==> |tails| <= 999
    ensures Sort(Numbered(folder, tails)) == Numbered(folder, tails) <==> |tails| <= 999
  {
    var r := Numbered(folder, tails);
    if |tails| <= 999 {
      NumberedInOrdinalOrder(folder, tails);
    } else {
      FourDigits();
      var a, b := Pad3(101) + tails[100], Pad3(1000) + tails[999];
      assert a[..2] == b[..2];
      assert b[2] < a[2];
      BelowAt(b, a, 2);
      SameFolderBelow(folder, a, b);
      assert r[100] == Join(folder, a) && r[999] == Join(folder, b);
      assert !Below(r[100], r[999]);
      SortSpec(r);
    }
  }
}
