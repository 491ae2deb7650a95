/** Splitting a file name at its last dot, and the name a colliding duplicate
    is given when it is moved. */
module FileNames {
  import opened Results

  /** Stem and extension of a name, split at its last '.'; None when there is no '.'.
      Defined by recursion on the name's last character. */
  function SplitExt(fn: string): Option<(string, string)>
  {
    if fn == [] then None
    else if fn[|fn| - 1] == '.' then Some((fn[..|fn| - 1], ""))
    else
      match SplitExt(fn[..|fn| - 1])
      case None => None
      case Some(se) => Some((se.0, se.1 + [fn[|fn| - 1]]))
  }

  /** A split puts the name back together, and its extension holds no '.'. */
  lemma {:induction false} SplitExtRoundTrip(fn: string)
    ensures SplitExt(fn).Some? ==>
      SplitExt(fn).value.0 + "." + SplitExt(fn).value.1 == fn && '.' !in SplitExt(fn).value.1
  {
    if fn != [] && fn[|fn| - 1] != '.' {
      var pre := fn[..|fn| - 1];
      SplitExtRoundTrip(pre);
      if SplitExt(pre).Some? {
        var se := SplitExt(pre).value;
        assert fn == pre + [fn[|fn| - 1]];
        assert se.0 + "." + (se.1 + [fn[|fn| - 1]]) == (se.0 + "." + se.1) + [fn[|fn| - 1]];
      }
    }
  }

  /** The split fails exactly when the name has no '.' (the empty name included). */
  lemma {:induction false} SplitExtFailsIffNoDot(fn: string)
    ensures SplitExt(fn).None? <==> '.' !in fn
  {
    if fn != [] {
      var pre := fn[..|fn| - 1];
      SplitExtFailsIffNoDot(pre);
      assert fn == pre + [fn[|fn| - 1]];
    }
  }

  /** Any stem and dot-free extension that make up the name are the split: the split
      is at the last dot, and the stem may itself contain dots. */
  lemma {:induction false} SplitExtUnique(fn: string, stem: string, ext: string)
    requires stem + "." + ext == fn && '.' !in ext
    ensures SplitExt(fn) == Some((stem, ext))
    decreases |ext|
  {
    if ext == [] {
      assert fn[..|fn| - 1] == stem;
    } else {
      var pre := fn[..|fn| - 1];
      var ext' := ext[..|ext| - 1];
      assert ext[|ext| - 1] in ext;
      assert stem + "." + ext' == pre;
      assert forall c :: c in ext' ==> c in ext;
      SplitExtUnique(pre, stem, ext');
      assert ext' + [ext[|ext| - 1]] == ext;
    }
  }

  /** get_filename_ext: scans backwards for the last '.' and on success writes the
      stem and extension into `res`; on failure `res` is left as it was. */
  method GetFilenameExt(fn: string, res: (string, string)) returns (r: Status, res': (string, string))
    ensures r == Failed || r == Success
    ensures r == Failed <==> '.' !in fn
    ensures r == Failed ==> res' == res
    ensures r == Success ==> res'.0 + "." + res'.1 == fn && '.' !in res'.1
    ensures r == Success ==> SplitExt(fn) == Some(res')
  {
    var i := |fn| - 1;
    while i >= 0
      invariant -1 <= i < |fn|
      invariant forall j :: i < j < |fn| ==> fn[j] != '.'
    {
      if fn[i] == '.' {
        break;
      }
      i := i - 1;
    }
    if i < 0 {
      return Failed, res;
    }
    res' := (fn[..i], fn[i + 1..]);
    assert fn == res'.0 + "." + res'.1;
    SplitExtUnique(fn, res'.0, res'.1);
    r := Success;
  }

  // ---------------------------------------------------------------------------
  // Decimal rendering of the random suffix, as `operator<<` prints an int.
  // ---------------------------------------------------------------------------

  function DecimalDigit(n: nat): (c: char)
    requires n < 10
    ensures '0' <= c <= '9'
  {
    ('0' as int + n) as char
  }

  /** The decimal digits of n, most significant first, without leading zeros. */
  function Decimal(n: nat): string
  {
    if n < 10 then [DecimalDigit(n)] else Decimal(n / 10) + [DecimalDigit(n % 10)]
  }

  /** The digits of a decimal string read back as a number. */
  function DecimalValue(s: string): nat
    requires forall i :: 0 <= i < |s| ==> '0' <= s[i] <= '9'
  {
    if s == [] then 0 else 10 * DecimalValue(s[..|s| - 1]) + (s[|s| - 1] as int - '0' as int)
  }

  /** A rendering is non-empty, holds only digits (hence no '.'), and reads back as n. */
  lemma {:induction false} DecimalRoundTrip(n: nat)
    ensures Decimal(n) != [] && forall i :: 0 <= i < |Decimal(n)| ==> '0' <= Decimal(n)[i] <= '9'
    ensures '.' !in Decimal(n)
    ensures DecimalValue(Decimal(n)) == n
  {
    if n >= 10 {
      DecimalRoundTrip(n / 10);
      var s := Decimal(n);
      assert s[..|s| - 1] == Decimal(n / 10);
    }
  }

  /** The bounds of the uniform distribution moveDup draws its suffix from. */
  const MinSuffix: int := 458970
  const MaxSuffix: int := 2000000000

  /** The new name of a colliding duplicate: random digits inserted before the extension. */
  function RenamedName(fn: string, n: nat): Option<string>
  {
    match SplitExt(fn)
    case None => None
    case Some(se) => Some(se.0 + Decimal(n) + "." + se.1)
  }

  /** Renaming keeps the extension: the new name splits into the old stem followed
      by the digits, and the old extension. */
  lemma RenamedKeepsExtension(fn: string, n: nat)
    ensures RenamedName(fn, n).None? <==> '.' !in fn
    ensures RenamedName(fn, n).Some? ==>
      SplitExt(RenamedName(fn, n).value) == Some((SplitExt(fn).value.0 + Decimal(n), SplitExt(fn).value.1))
  {
    SplitExtFailsIffNoDot(fn);
    if SplitExt(fn).Some? {
      var se := SplitExt(fn).value;
      SplitExtRoundTrip(fn);
      assert (se.0 + Decimal(n)) + "." + se.1 == se.0 + Decimal(n) + "." + se.1;
      SplitExtUnique(se.0 + Decimal(n) + "." + se.1, se.0 + Decimal(n), se.1);
    }
  }
}
