/** Decimal text of non-negative integers, as Python's `"%u"` and `"%010u"`
    format them, and reading such text back. */
module Decimal {

  predicate IsDigit(c: char)
  {
    '0' <= c <= '9'
  }

  predicate AllDigits(s: string)
  {
    forall i :: 0 <= i < |s| ==> IsDigit(s[i])
  }

  function DigitChar(d: nat): (c: char)
    requires d < 10
    ensures IsDigit(c) && c as int - '0' as int == d
  {
    ['0', '1', '2', '3', '4', '5', '6', '7', '8', '9'][d]
  }

  /** `"%u" % n`: the shortest decimal numeral of `n`. */
  function Show(n: nat): (s: string)
    ensures 1 <= |s| && AllDigits(s)
    ensures |s| > 1 ==> s[0] != '0'
    decreases n
  {
    if n < 10 then [DigitChar(n)] else Show(n / 10) + [DigitChar(n % 10)]
  }

  /** The value of a string of digits. */
  function Read(s: string): nat
    requires AllDigits(s)
  {
    if s == [] then 0 else Read(s[..|s| - 1]) * 10 + (s[|s| - 1] as int - '0' as int)
  }

  lemma {:induction false} ReadShow(n: nat)
    ensures Read(Show(n)) == n
    decreases n
  {
    if n >= 10 {
      ReadShow(n / 10);
      var s := Show(n);
      assert s[..|s| - 1] == Show(n / 10);
    }
  }

  /** A numeral without a leading zero is the one `Show` gives its value. */
  lemma {:induction false} ShowRead(s: string)
    requires 1 <= |s| && AllDigits(s) && (|s| > 1 ==> s[0] != '0')
    ensures Show(Read(s)) == s
    decreases |s|
  {
    var init, last := s[..|s| - 1], s[|s| - 1];
    if |s| > 1 {
      assert init[0] == s[0];
      ShowRead(init);
      assert Read(init) >= 1 by {
        ReadLeadingDigit(init);
      }
      var n := Read(s);
      assert n / 10 == Read(init) && n % 10 == last as int - '0' as int;
      assert s == init + [last];
    } else {
      assert s == [last];
    }
  }

  /** A numeral whose first digit is not zero has a positive value. */
  lemma {:induction false} ReadLeadingDigit(s: string)
    requires 1 <= |s| && AllDigits(s) && s[0] != '0'
    ensures Read(s) >= 1
    decreases |s|
  {
    if |s| > 1 {
      assert s[..|s| - 1][0] == s[0];
      ReadLeadingDigit(s[..|s| - 1]);
    }
  }

  function Pow10(k: nat): (r: nat)
    ensures r >= 1
  {
    if k == 0 then 1 else 10 * Pow10(k - 1)
  }

  /** `n` takes at most `k` digits exactly when it is below `10^k`. */
  lemma {:induction false} ShowLength(n: nat, k: nat)
    requires k >= 1
    ensures |Show(n)| <= k <==> n < Pow10(k)
    decreases n
  {
    if n >= 10 {
      if k == 1 {
        assert Pow10(1) == 10;
      } else {
        ShowLength(n / 10, k - 1);
      }
    } else {
      assert Pow10(k) >= 10 by {
        PowTenGrows(k);
      }
    }
  }

  lemma {:induction false} PowTenGrows(k: nat)
    requires k >= 1
    ensures Pow10(k) >= 10
  {
    if k > 1 {
      PowTenGrows(k - 1);
    }
  }

  function Zeros(k: nat): (s: string)
    ensures |s| == k && AllDigits(s)
  {
    if k == 0 then [] else Zeros(k - 1) + ['0']
  }

  /** `"%0*u" % (width, n)`: padded on the left with zeros to at least
      `width` characters. */
  function ZeroPad(n: nat, width: nat): (s: string)
    ensures AllDigits(s)
  {
    var digits := Show(n);
    if |digits| < width then Zeros(width - |digits|) + digits else digits
  }

  /** Leading zeros do not change the value. */
  lemma {:induction false} ReadZeros(k: nat, s: string)
    requires AllDigits(s)
    ensures Read(Zeros(k) + s) == Read(s)
    decreases |s|
  {
    if s == [] {
      assert Zeros(k) + s == Zeros(k);
      ReadOfZeros(k);
    } else {
      var init := s[..|s| - 1];
      ReadZeros(k, init);
      assert (Zeros(k) + s)[..|Zeros(k) + s| - 1] == Zeros(k) + init;
    }
  }

  lemma {:induction false} ReadOfZeros(k: nat)
    ensures Read(Zeros(k)) == 0
  {
    if k > 0 {
      ReadOfZeros(k - 1);
      assert Zeros(k)[..k - 1] == Zeros(k - 1);
    }
  }

  /** A padded numeral is `max(width, digits)` long and reads back as `n`. */
  lemma ZeroPadRoundTrip(n: nat, width: nat)
    ensures Read(ZeroPad(n, width)) == n
    ensures |ZeroPad(n, width)| == if |Show(n)| < width then width else |Show(n)|
  {
    ReadShow(n);
    if |Show(n)| < width {
      ReadZeros(width - |Show(n)|, Show(n));
    }
  }

  /** A `width`-digit field holds `n` exactly when `n < 10^width`. */
  lemma ZeroPadFits(n: nat, width: nat)
    requires width >= 1
    ensures |ZeroPad(n, width)| == width <==> n < Pow10(width)
  {
    ShowLength(n, width);
  }
}
