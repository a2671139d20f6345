/**
  Mnemonic normalisation (the substitution `re.sub("[0-9.]+", "XXXX", col)`):
  every maximal run of digits and dots becomes the placeholder "XXXX", so
  numbered variants of one channel ("GR1", "GR12.5") share one dictionary key.
 */
module Mnemonics {
  import opened Strings

  const Placeholder: string := "XXXX"

  predicate IsRunChar(c: char) {
    IsDigit(c) || c == '.'
  }

  predicate NoRunChar(s: string) {
    forall i :: 0 <= i < |s| ==> !IsRunChar(s[i])
  }

  predicate AllRunChars(s: string) {
    forall i :: 0 <= i < |s| ==> IsRunChar(s[i])
  }

  /** The rest of `s` after its leading run of digits and dots. */
  function SkipRun(s: string): (r: string)
    ensures |r| <= |s|
    ensures r == s[|s| - |r|..]
    ensures |r| == 0 || !IsRunChar(r[0])
    ensures forall i :: 0 <= i < |s| - |r| ==> IsRunChar(s[i])
    ensures |s| > 0 && IsRunChar(s[0]) ==> |r| < |s|
  {
    if |s| > 0 && IsRunChar(s[0]) then
      var r := SkipRun(s[1..]);
      assert forall i :: 1 <= i < |s| ==> s[1..][i - 1] == s[i];
      r
    else s
  }

  function Normalize(s: string): (r: string)
    ensures NoRunChar(r)
    decreases |s|
  {
    if |s| == 0 then ""
    else if IsRunChar(s[0]) then Placeholder + Normalize(SkipRun(s))
    else [s[0]] + Normalize(s[1..])
  }

  /** A name with no digit or dot is its own key. */
  lemma {:induction false} NormalizeIdentity(s: string)
    requires NoRunChar(s)
    ensures Normalize(s) == s
    decreases |s|
  {
    if |s| > 0 {
      assert NoRunChar(s[1..]) by {
        assert forall i :: 1 <= i < |s| ==> s[1..][i - 1] == s[i];
      }
      NormalizeIdentity(s[1..]);
    }
  }

  /** Normalisation is idempotent. */
  lemma NormalizeIdempotent(s: string)
    ensures Normalize(Normalize(s)) == Normalize(s)
  {
    NormalizeIdentity(Normalize(s));
  }

  /** A non-empty run of digits and dots collapses to exactly one placeholder. */
  lemma NormalizeRun(d: string)
    requires |d| > 0 && AllRunChars(d)
    ensures Normalize(d) == Placeholder
  {
    assert |SkipRun(d)| == 0;
  }

  /** Skipping a run that ends inside `a` leaves the rest of `a` followed by `b`. */
  lemma {:induction false} SkipRunAppend(a: string, b: string)
    ensures |SkipRun(a)| > 0 ==> SkipRun(a + b) == SkipRun(a) + b
    ensures |SkipRun(a)| == 0 ==> SkipRun(a + b) == SkipRun(b)
    decreases |a|
  {
    if |a| == 0 {
      assert a + b == b;
    } else if IsRunChar(a[0]) {
      assert (a + b)[0] == a[0];
      assert (a + b)[1..] == a[1..] + b;
      assert SkipRun(a) == SkipRun(a[1..]);
      SkipRunAppend(a[1..], b);
    } else {
      assert (a + b)[0] == a[0];
    }
  }

  /**
    Normalisation works run by run: cutting a name at a point that does not
    fall inside a run of digits and dots normalises each half separately.
   */
  lemma {:induction false} NormalizeAppend(a: string, b: string)
    requires |a| == 0 || |b| == 0 || !IsRunChar(a[|a| - 1]) || !IsRunChar(b[0])
    ensures Normalize(a + b) == Normalize(a) + Normalize(b)
    decreases |a|
  {
    if |a| == 0 {
      assert a + b == b;
    } else if IsRunChar(a[0]) {
      NormalizeAppendRun(a, b);
    } else {
      assert (a + b)[0] == a[0];
      assert (a + b)[1..] == a[1..] + b;
      NormalizeAppend(a[1..], b);
      calc {
        Normalize(a + b);
        [a[0]] + Normalize(a[1..] + b);
        [a[0]] + (Normalize(a[1..]) + Normalize(b));
        { AppendAssoc([a[0]], Normalize(a[1..]), Normalize(b)); }
        ([a[0]] + Normalize(a[1..])) + Normalize(b);
      }
    }
  }

  lemma AppendAssoc(x: string, y: string, z: string)
    ensures x + (y + z) == (x + y) + z
  {
  }

  /** The case of `NormalizeAppend` where `a` opens with a run. */
  lemma {:induction false} NormalizeAppendRun(a: string, b: string)
    requires |a| > 0 && IsRunChar(a[0])
    requires |b| == 0 || !IsRunChar(a[|a| - 1]) || !IsRunChar(b[0])
    ensures Normalize(a + b) == Normalize(a) + Normalize(b)
    decreases |a|, 0
  {
    var rest := SkipRun(a);
    if |rest| == 0 {
      NormalizeAppendWholeRun(a, b);
    } else {
      assert (a + b)[0] == a[0];
      SkipRunAppend(a, b);
      assert rest[|rest| - 1] == a[|a| - 1] by {
        assert rest == a[|a| - |rest|..];
      }
      NormalizeAppend(rest, b);
      AppendAssoc(Placeholder, Normalize(rest), Normalize(b));
    }
  }

  /** The case of `NormalizeAppend` where `a` is one whole run. */
  lemma NormalizeAppendWholeRun(a: string, b: string)
    requires |a| > 0 && IsRunChar(a[0]) && |SkipRun(a)| == 0
    requires |b| == 0 || !IsRunChar(a[|a| - 1]) || !IsRunChar(b[0])
    ensures Normalize(a + b) == Normalize(a) + Normalize(b)
  {
    assert (a + b)[0] == a[0];
    SkipRunAppend(a, b);
    assert SkipRun(b) == b by {
      if |b| > 0 {
        assert IsRunChar(a[|a| - 1]);
      }
    }
    assert Normalize(a) == Placeholder;
  }

  /** A plain name followed by a number, with or without dots, has the key name + "XXXX". */
  lemma NormalizeNumbered(name: string, number: string)
    requires NoRunChar(name)
    requires |number| > 0 && AllRunChars(number)
    ensures Normalize(name + number) == name + Placeholder
  {
    NormalizeIdentity(name);
    NormalizeRun(number);
    NormalizeAppend(name, number);
  }

  /** "GR12.5" normalises to the key "GRXXXX". */
  lemma NormalizeExample(mnemonic: string)
    requires mnemonic == "GR12.5"
    ensures Normalize(mnemonic) == "GRXXXX"
  {
    assert mnemonic == mnemonic[..2] + mnemonic[2..];
    NormalizeNumbered(mnemonic[..2], mnemonic[2..]);
  }
}
