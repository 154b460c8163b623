/** Why the prefix is worth having: sorting renamed files by name in
    first-difference order (the first position where two names differ decides)
    orders them by the second they were last modified. This holds for instants
    before year 10000, where every prefix has 25 characters. */
module Ordering {
  import opened Decimal
  import opened Civil
  import opened Prefix

  /** s sorts before t because they first differ at a position both have, where
      s has the smaller character: the first-difference order, which leaves a
      name and its proper prefixes unordered. */
  predicate LexBefore(s: string, t: string)
  {
    exists i :: 0 <= i < |s| && i < |t| && (forall k :: 0 <= k < i ==> s[k] == t[k]) && s[i] < t[i]
  }

  /** No two strings sort before each other. */
  lemma LexAsymmetric(s: string, t: string)
    requires LexBefore(s, t)
    ensures !LexBefore(t, s)
  {
    var i :| 0 <= i < |s| && i < |t| && (forall k :: 0 <= k < i ==> s[k] == t[k]) && s[i] < t[i];
    assert forall j :: 0 <= j < |t| && j < |s| && (forall k :: 0 <= k < j ==> t[k] == s[k]) ==> !(t[j] < s[j]);
  }

  /** What follows two strings does not matter once they differ. */
  lemma LexExtend(s: string, t: string, x: string, y: string)
    requires LexBefore(s, t)
    ensures LexBefore(s + x, t + y)
  {
    var i :| 0 <= i < |s| && i < |t| && (forall k :: 0 <= k < i ==> s[k] == t[k]) && s[i] < t[i];
    assert (s + x)[i] == s[i] && (t + y)[i] == t[i];
    assert forall k :: 0 <= k < i ==> (s + x)[k] == (t + y)[k];
  }

  /** Strings that agree up to position j and differ first inside u[j..j+w]. */
  lemma FieldDecides(u: string, v: string, j: nat, w: nat)
    requires j + w <= |u| && j + w <= |v|
    requires forall k :: 0 <= k < j ==> u[k] == v[k]
    requires LexBefore(u[j..j + w], v[j..j + w])
    ensures LexBefore(u, v)
  {
    var x, y := u[j..j + w], v[j..j + w];
    var i :| 0 <= i < |x| && i < |y| && (forall k :: 0 <= k < i ==> x[k] == y[k]) && x[i] < y[i];
    assert u[j + i] == x[i] && v[j + i] == y[i];
    forall k | 0 <= k < j + i ensures u[k] == v[k] {
      if k >= j { assert u[k] == x[k - j] && v[k] == y[k - j]; }
    }
  }

  /** Equal slices agree position by position. */
  lemma SlicesAgree(u: string, v: string, j: nat, w: nat)
    requires j + w <= |u| && j + w <= |v| && u[j..j + w] == v[j..j + w]
    ensures forall k :: j <= k < j + w ==> u[k] == v[k]
  {
    forall k | j <= k < j + w ensures u[k] == v[k] {
      assert u[k] == u[j..j + w][k - j];
    }
  }

  /** Digit strings of one length denoting the same number are the same string. */
  lemma {:induction false} ValueInjective(s: string, t: string)
    requires |s| == |t| && AllDigits(s) && AllDigits(t) && Value(s) == Value(t)
    ensures s == t
    decreases |s|
  {
    if s != [] {
      var n := |s| - 1;
      LastDigit(Value(s[..n]), DigitValue(s[n]), Value(t[..n]), DigitValue(t[n]));
      ValueInjective(s[..n], t[..n]);
      assert s == s[..n] + [s[n]] && t == t[..n] + [t[n]];
    }
  }

  /** The last digit and the number before it are determined by the value. */
  lemma LastDigit(x: nat, c: nat, y: nat, d: nat)
    requires c < 10 && d < 10 && x * 10 + c == y * 10 + d
    ensures x == y && c == d
  {
    assert x < y ==> x * 10 + c < y * 10;
    assert y < x ==> y * 10 + d < x * 10;
  }

  /** Among digit strings of one length, the smaller number sorts first. */
  lemma {:induction false} DigitsOrder(s: string, t: string)
    requires |s| == |t| && AllDigits(s) && AllDigits(t) && Value(s) < Value(t)
    ensures LexBefore(s, t)
    decreases |s|
  {
    var n := |s| - 1;
    var s', t' := s[..n], t[..n];
    assert s == s' + [s[n]] && t == t' + [t[n]];
    if Value(s') < Value(t') {
      DigitsOrder(s', t');
      LexExtend(s', t', [s[n]], [t[n]]);
    } else {
      assert Value(s') == Value(t');
      ValueInjective(s', t');
      assert DigitValue(s[n]) < DigitValue(t[n]);
      assert forall k :: 0 <= k < n ==> s[k] == t[k];
    }
  }

  /** A field value that fits the field's width sorts before a larger one. */
  lemma PaddedOrder(m: nat, n: nat, width: nat)
    requires width >= 1 && m < n < Pow10(width)
    ensures |Padded(m, width)| == width && |Padded(n, width)| == width
    ensures LexBefore(Padded(m, width), Padded(n, width))
  {
    PaddedWidth(m, width);
    PaddedWidth(n, width);
    ValueOfPadded(m, width);
    ValueOfPadded(n, width);
    DigitsOrder(Padded(m, width), Padded(n, width));
  }

  /** s is a 25-character prefix holding the fields of dt. */
  predicate LaidOut(s: string, dt: DateTime)
  {
    && |s| == 25
    && s[0..4] == Padded(dt.year, 4) && s[4] == '-'
    && s[5..7] == Padded(dt.month, 2) && s[7] == '-'
    && s[8..10] == Padded(dt.day, 2) && s[10] == '_'
    && s[11..13] == Padded(dt.hour, 2) && s[13] == '-'
    && s[14..16] == Padded(dt.minute, 2) && s[16] == '-'
    && s[17..19] == Padded(dt.second, 2)
  }

  /** Where the fields sit in a prefix before year 10000. */
  lemma PrefixFields(millis: nat)
    requires millis < FirstMilliOfYear10000
    ensures LaidOut(UtcPrefix(millis), FromEpochSeconds(millis / MillisPerSecond))
  {
    var dt := FromEpochSeconds(millis / MillisPerSecond);
    UtcPrefixLength(millis);
    PrefixLayout(millis);
    TwoDigits(dt.month);
    TwoDigits(dt.day);
    TwoDigits(dt.hour);
    TwoDigits(dt.minute);
    TwoDigits(dt.second);
    LayoutSlices(Padded(dt.month, 2), Padded(dt.day, 2), Padded(dt.hour, 2),
                 Padded(dt.minute, 2), Padded(dt.second, 2));
    LaidOutOfParts(UtcPrefix(millis), dt);
  }

  lemma LaidOutOfParts(s: string, dt: DateTime)
    requires |s| == 25 && s[..4] == Padded(dt.year, 4)
    requires var t := s[4..];
             && t[0] == '-' && t[3] == '-' && t[6] == '_' && t[9] == '-' && t[12] == '-'
             && t[1..3] == Padded(dt.month, 2) && t[4..6] == Padded(dt.day, 2)
             && t[7..9] == Padded(dt.hour, 2) && t[10..12] == Padded(dt.minute, 2)
             && t[13..15] == Padded(dt.second, 2)
    ensures LaidOut(s, dt)
  {
    SliceShift(s, 4, 1, 3);
    SliceShift(s, 4, 4, 6);
    SliceShift(s, 4, 7, 9);
    SliceShift(s, 4, 10, 12);
    SliceShift(s, 4, 13, 15);
    assert s[4] == s[4..][0] && s[7] == s[4..][3] && s[10] == s[4..][6];
    assert s[13] == s[4..][9] && s[16] == s[4..][12];
  }

  /** A slice of a suffix is a slice of the whole string, shifted. */
  lemma SliceShift(s: string, j: nat, a: nat, b: nat)
    requires j <= |s| && a <= b <= |s| - j
    ensures s[j + a..j + b] == s[j..][a..b]
  {
    assert forall k :: 0 <= k < b - a ==> s[j + a..j + b][k] == s[j + a + k] == s[j..][a..b][k];
  }

  /** The prefix of an earlier second sorts first, whatever names follow. */
  lemma EarlierPrefixSortsFirst(a: nat, b: nat, name1: string, name2: string)
    requires a < FirstMilliOfYear10000 && b < FirstMilliOfYear10000
    requires a / MillisPerSecond < b / MillisPerSecond
    ensures LexBefore(UtcPrefix(a) + name1, UtcPrefix(b) + name2)
  {
    var da, db := FromEpochSeconds(a / MillisPerSecond), FromEpochSeconds(b / MillisPerSecond);
    EarlierSecondEarlierFields(da, db);
    YearBelow10000(a / MillisPerSecond);
    YearBelow10000(b / MillisPerSecond);
    PrefixFields(a);
    PrefixFields(b);
    LaidOutOrder(UtcPrefix(a), UtcPrefix(b), da, db);
    LexExtend(UtcPrefix(a), UtcPrefix(b), name1, name2);
  }

  /** Laid-out fields compare as the fields do. */
  lemma LaidOutOrder(u: string, v: string, da: DateTime, db: DateTime)
    requires Valid(da) && Valid(db) && da.year <= 9999 && db.year <= 9999 && Before(da, db)
    requires LaidOut(u, da) && LaidOut(v, db)
    ensures LexBefore(u, v)
  {
    assert Pow10(2) == 100 && Pow10(4) == 10000;
    if da.year < db.year {
      FieldCase(u, v, 0, 4, da.year, db.year);
    } else {
      SlicesAgree(u, v, 0, 4);
      if da.month < db.month {
        FieldCase(u, v, 5, 2, da.month, db.month);
      } else {
        SlicesAgree(u, v, 5, 2);
        if da.day < db.day {
          FieldCase(u, v, 8, 2, da.day, db.day);
        } else {
          SlicesAgree(u, v, 8, 2);
          LaidOutTimeOrder(u, v, da, db);
        }
      }
    }
  }

  /** Same date: the hour, minute or second decides. */
  lemma LaidOutTimeOrder(u: string, v: string, da: DateTime, db: DateTime)
    requires Valid(da) && Valid(db) && TimeBefore(da, db)
    requires LaidOut(u, da) && LaidOut(v, db)
    requires forall k :: 0 <= k < 11 ==> u[k] == v[k]
    ensures LexBefore(u, v)
  {
    assert Pow10(2) == 100;
    if da.hour < db.hour {
      FieldCase(u, v, 11, 2, da.hour, db.hour);
    } else {
      SlicesAgree(u, v, 11, 2);
      if da.minute < db.minute {
        FieldCase(u, v, 14, 2, da.minute, db.minute);
      } else {
        SlicesAgree(u, v, 14, 2);
        FieldCase(u, v, 17, 2, da.second, db.second);
      }
    }
  }

  /** Strings that agree before position j, where they hold the fields m < n. */
  lemma FieldCase(u: string, v: string, j: nat, w: nat, m: nat, n: nat)
    requires w >= 1 && j + w <= |u| && j + w <= |v| && m < n < Pow10(w)
    requires u[j..j + w] == Padded(m, w) && v[j..j + w] == Padded(n, w)
    requires forall k :: 0 <= k < j ==> u[k] == v[k]
    ensures LexBefore(u, v)
  {
    PaddedOrder(m, n, w);
    FieldDecides(u, v, j, w);
  }

  /** Before year 10000, a renamed file's name sorts before another's exactly
      when its prefix is earlier; names with one prefix are ordered by what follows. */
  lemma NameOrderFollowsTime(a: nat, b: nat, name1: string, name2: string)
    requires a < FirstMilliOfYear10000 && b < FirstMilliOfYear10000
    requires a / MillisPerSecond != b / MillisPerSecond
    ensures LexBefore(UtcPrefix(a) + name1, UtcPrefix(b) + name2) <==> a / MillisPerSecond < b / MillisPerSecond
  {
    if a / MillisPerSecond < b / MillisPerSecond {
      EarlierPrefixSortsFirst(a, b, name1, name2);
    } else {
      EarlierPrefixSortsFirst(b, a, name2, name1);
      LexAsymmetric(UtcPrefix(b) + name2, UtcPrefix(a) + name1);
    }
  }

  /** Within one second the prefixes are equal, so the original names decide. */
  lemma SameSecondNameDecides(a: nat, b: nat, name1: string, name2: string)
    requires a / MillisPerSecond == b / MillisPerSecond
    ensures LexBefore(UtcPrefix(a) + name1, UtcPrefix(b) + name2) <==> LexBefore(name1, name2)
  {
    UtcPrefixInjective(a, b);
    CommonPrefix(UtcPrefix(a), name1, name2);
  }

  /** A common beginning does not change how two strings sort. */
  lemma {:induction false} CommonPrefix(u: string, x: string, y: string)
    ensures LexBefore(u + x, u + y) <==> LexBefore(x, y)
  {
    if LexBefore(x, y) {
      var i :| 0 <= i < |x| && i < |y| && (forall k :: 0 <= k < i ==> x[k] == y[k]) && x[i] < y[i];
      assert (u + x)[|u| + i] == x[i] && (u + y)[|u| + i] == y[i];
      assert forall k :: 0 <= k < |u| + i ==> (u + x)[k] == (u + y)[k];
    }
    if LexBefore(u + x, u + y) {
      var ux, uy := u + x, u + y;
      var i :| 0 <= i < |ux| && i < |uy| && (forall k :: 0 <= k < i ==> ux[k] == uy[k]) && ux[i] < uy[i];
      assert i >= |u| by {
        assert forall k :: 0 <= k < |u| ==> ux[k] == uy[k];
      }
      assert x[i - |u|] == ux[i] && y[i - |u|] == uy[i];
      assert forall k :: 0 <= k < i - |u| ==> x[k] == ux[|u| + k] && y[k] == uy[|u| + k];
    }
  }

  /** From year 10000 on the order breaks: the five-digit year 10000 sorts before
      the four-digit year 9999, so a later instant's name sorts first. */
  lemma WiderYearSortsFirst(u: string, v: string, early: nat, late: nat)
    requires early == 9999 && late == 10000
    requires |u| >= 4 && u[..4] == Padded(early, 4)
    requires |v| >= 5 && v[..5] == Padded(late, 4)
    ensures LexBefore(v, u)
  {
  }
}
