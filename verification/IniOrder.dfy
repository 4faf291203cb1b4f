/** The comparator of the INI table: ASCII letters compare without case. */
module IniOrder {

  function LoCase(c: char): char {
    if 'A' <= c <= 'Z' then c - 'A' + 'a' else c
  }

  /** The value that the comparator subtracts: char is signed, as on x86, so bytes above 127 come before all others. */
  function Code(c: char): int { if 128 <= c as int < 256 then c as int - 256 else c as int }

  function Fold(s: string): (f: string)
    ensures |f| == |s|
    ensures forall i :: 0 <= i < |s| ==> f[i] == LoCase(s[i])
  {
    if s == "" then "" else [LoCase(s[0])] + Fold(s[1..])
  }

  /** The order the source's loop computes, as a recursion on both strings. */
  predicate Less(a: string, b: string) {
    if a == "" || b == "" then b != ""
    else if LoCase(a[0]) != LoCase(b[0]) then Code(LoCase(a[0])) < Code(LoCase(b[0]))
    else Less(a[1..], b[1..])
  }

  predicate Equiv(a: string, b: string) { !Less(a, b) && !Less(b, a) }

  /** Two names are the same to the table exactly when they fold to the same text. */
  lemma {:induction false} EquivIsFoldEquality(a: string, b: string)
    ensures Equiv(a, b) <==> Fold(a) == Fold(b)
  {
    if a != "" && b != "" {
      EquivIsFoldEquality(a[1..], b[1..]);
      if LoCase(a[0]) == LoCase(b[0]) && Fold(a) == Fold(b) {
        assert Fold(a)[1..] == Fold(a[1..]) && Fold(b)[1..] == Fold(b[1..]);
      }
      if Fold(a) == Fold(b) {
        assert Fold(a)[0] == Fold(b)[0];
      }
    } else {
      assert |Fold(a)| == |a| && |Fold(b)| == |b|;
    }
  }

  lemma {:induction false} LessTransitive(a: string, b: string, c: string)
    requires Less(a, b) && Less(b, c)
    ensures Less(a, c)
  {
    if a != "" && b != "" && c != "" && LoCase(a[0]) == LoCase(b[0]) == LoCase(c[0]) {
      LessTransitive(a[1..], b[1..], c[1..]);
    }
  }

  lemma {:induction false} LessIrreflexive(a: string)
    ensures !Less(a, a)
  {
    if a != "" { LessIrreflexive(a[1..]); }
  }

  lemma {:induction false} LessAsymmetric(a: string, b: string)
    requires Less(a, b)
    ensures !Less(b, a)
  {
    if a != "" && b != "" && LoCase(a[0]) == LoCase(b[0]) { LessAsymmetric(a[1..], b[1..]); }
  }

  /** The order sees a name only through its folded form. */
  lemma {:induction false} LessOnFolds(a: string, b: string, a': string, b': string)
    requires Fold(a) == Fold(a') && Fold(b) == Fold(b')
    ensures Less(a, b) == Less(a', b')
  {
    assert |a| == |Fold(a)| == |a'| && |b| == |Fold(b)| == |b'|;
    if a != "" && b != "" {
      assert LoCase(a[0]) == Fold(a)[0] == LoCase(a'[0]);
      assert LoCase(b[0]) == Fold(b)[0] == LoCase(b'[0]);
      assert Fold(a[1..]) == Fold(a)[1..] == Fold(a'[1..]);
      assert Fold(b[1..]) == Fold(b)[1..] == Fold(b'[1..]);
      LessOnFolds(a[1..], b[1..], a'[1..], b'[1..]);
    }
  }

  /** Of two names that fold differently one precedes the other. */
  lemma LessTotal(a: string, b: string)
    requires Fold(a) != Fold(b)
    ensures Less(a, b) != Less(b, a)
  {
    EquivIsFoldEquality(a, b);
    if Less(a, b) { LessAsymmetric(a, b); }
  }

  /** The comparator is a strict weak order whose equivalence is equality of folded names. */
  lemma StrictWeakOrder()
    ensures forall a :: !Less(a, a)
    ensures forall a, b :: Less(a, b) ==> !Less(b, a)
    ensures forall a, b, c :: Less(a, b) && Less(b, c) ==> Less(a, c)
    ensures forall a, b :: Equiv(a, b) <==> Fold(a) == Fold(b)
    ensures forall a, b, c :: Equiv(a, b) && Equiv(b, c) ==> Equiv(a, c)
  {
    forall a ensures !Less(a, a) { LessIrreflexive(a); }
    forall a, b | Less(a, b) ensures !Less(b, a) { LessAsymmetric(a, b); }
    forall a, b, c | Less(a, b) && Less(b, c) ensures Less(a, c) { LessTransitive(a, b, c); }
    forall a, b ensures Equiv(a, b) <==> Fold(a) == Fold(b) { EquivIsFoldEquality(a, b); }
  }

  // ---------- the same without folding

  /** Equal, or the capital and the small form of one letter. */
  predicate SameLetter(x: char, y: char) {
    || x == y
    || ('A' <= x <= 'Z' && y as int == x as int + 32)
    || ('A' <= y <= 'Z' && x as int == y as int + 32)
  }

  predicate NoCase(a: string, b: string) { |a| == |b| && forall i :: 0 <= i < |a| ==> SameLetter(a[i], b[i]) }

  lemma SameLetterIs(x: char, y: char)
    ensures LoCase(x) == LoCase(y) <==> SameLetter(x, y)
  {
  }

  lemma FoldIsNoCase(a: string, b: string)
    ensures Fold(a) == Fold(b) <==> NoCase(a, b)
  {
    hide LoCase, SameLetter;
    assert |Fold(a)| == |a| && |Fold(b)| == |b|;
    if |a| == |b| {
      forall i | 0 <= i < |a| ensures Fold(a)[i] == Fold(b)[i] <==> SameLetter(a[i], b[i]) { SameLetterIs(a[i], b[i]); }
    }
  }

  /** Neither of two names precedes the other exactly when they differ at most in the case of the letters A to Z. */
  lemma EquivIsNoCase(a: string, b: string)
    ensures Equiv(a, b) <==> NoCase(a, b)
    ensures Fold(a) == Fold(b) <==> NoCase(a, b)
  {
    hide Equiv, Fold, NoCase;
    EquivIsFoldEquality(a, b);
    FoldIsNoCase(a, b);
  }

  /** The order of two characters: bytes above 127 come before all others. */
  predicate Before(x: char, y: char) {
    if 128 <= x as int < 256 <==> 128 <= y as int < 256 then x < y else 128 <= x as int < 256
  }

  /** The first n characters are the same; behind them one name has ended, or has the character that comes first. */
  predicate PrecedesAt(a: string, b: string, n: int) {
    0 <= n <= |a| && n <= |b| && a[..n] == b[..n] &&
    if n == |a| || n == |b| then n == |a| < |b| else Before(a[n], b[n])
  }

  lemma AtFront(a: string, b: string, n: int)
    requires a != "" && b != "" && PrecedesAt(a, b, n)
    ensures if n == 0 then Before(a[0], b[0]) else a[0] == b[0]
  {
    if n > 0 { assert a[0] == a[..n][0] && b[0] == b[..n][0]; }
  }

  predicate NoCapital(s: string) { forall i :: 0 <= i < |s| ==> !('A' <= s[i] <= 'Z') }

  /** On names without capitals it is the order of a dictionary. */
  lemma {:induction false} LessIs(a: string, b: string)
    requires NoCapital(a) && NoCapital(b)
    ensures Less(a, b) <==> exists n :: PrecedesAt(a, b, n)
  {
    if a == "" || b == "" {
      assert a[..0] == b[..0];
      assert PrecedesAt(a, b, 0) <==> b != "";
      assert forall n :: PrecedesAt(a, b, n) ==> n == 0;
    } else if a[0] != b[0] {
      assert a[..0] == b[..0];
      assert PrecedesAt(a, b, 0) <==> Before(a[0], b[0]);
      forall n | PrecedesAt(a, b, n) ensures n == 0 { AtFront(a, b, n); }
    } else {
      LessIs(a[1..], b[1..]);
      forall n | PrecedesAt(a, b, n) ensures PrecedesAt(a[1..], b[1..], n - 1) {
        AtFront(a, b, n);
        assert a[1..][..n - 1] == a[..n][1..] && b[1..][..n - 1] == b[..n][1..];
      }
      forall n | PrecedesAt(a[1..], b[1..], n) ensures PrecedesAt(a, b, n + 1) {
        assert a[..n + 1] == [a[0]] + a[1..][..n] && b[..n + 1] == [b[0]] + b[1..][..n];
      }
    }
  }

  /** And for all names it does not depend on the case of letters. */
  lemma LessNoCase(a: string, b: string, a': string, b': string)
    requires NoCase(a, a') && NoCase(b, b')
    ensures Less(a, b) == Less(a', b')
  {
    hide Less, NoCase;
    EquivIsNoCase(a, a');
    EquivIsNoCase(b, b');
    LessOnFolds(a, b, a', b');
  }

  /** The comparator as the source runs it: two cursors advance over both strings. */
  method IsLess(a: string, b: string) returns (less: bool)
    ensures less == Less(a, b)
  {
    var i := 0;
    while i < |a| && i < |b|
      invariant 0 <= i <= |a| && i <= |b|
      invariant Less(a, b) == Less(a[i..], b[i..])
    {
      if LoCase(a[i]) != LoCase(b[i]) {
        return Code(LoCase(a[i])) - Code(LoCase(b[i])) < 0;
      }
      assert a[i..][1..] == a[i + 1..] && b[i..][1..] == b[i + 1..];
      i := i + 1;
    }
    return i < |b|;
  }
}
