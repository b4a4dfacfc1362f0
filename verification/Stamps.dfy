/** Fixed-width UTC stamps: their string order is the order of time. */
module Stamps {
  import opened Paths

  /** A UTC instant to the second, as its calendar fields. */
  datatype Instant = Instant(year: nat, month: nat, day: nat, hour: nat, minute: nat, second: nat) {
    predicate Valid() {
      year < 10000 && month < 100 && day < 100 && hour < 100 && minute < 100 && second < 100
    }
  }

  function Digits(n: nat, width: nat): string {
    if width == 0 then "" else Digits(n / 10, width - 1) + [('0' as int + n % 10) as char]
  }

  /** The layout 20060102T150405Z. */
  function Stamp(t: Instant): string {
    Digits(t.year, 4) + (Digits(t.month, 2) + (Digits(t.day, 2) + ("T" + (Digits(t.hour, 2) + (Digits(t.minute, 2) + (Digits(t.second, 2) + "Z"))))))
  }

  predicate Before(t: Instant, u: Instant) {
    t.year < u.year || (t.year == u.year &&
    (t.month < u.month || (t.month == u.month &&
    (t.day < u.day || (t.day == u.day &&
    (t.hour < u.hour || (t.hour == u.hour &&
    (t.minute < u.minute || (t.minute == u.minute && t.second < u.second)))))))))
  }

  function Power(width: nat): nat {
    if width == 0 then 1 else 10 * Power(width - 1)
  }

  lemma {:induction false} DigitsWidth(n: nat, width: nat)
    ensures |Digits(n, width)| == width
  {
    if width > 0 { DigitsWidth(n / 10, width - 1); }
  }

  lemma {:induction false} LessCancelsPrefix(a: string, b: string, c: string)
    ensures StringLess(a + b, a + c) == StringLess(b, c)
  {
    if a == "" {
      assert a + b == b && a + c == c;
    } else {
      LessCancelsPrefix(a[1..], b, c);
      assert (a + b)[1..] == a[1..] + b && (a + c)[1..] == a[1..] + c;
    }
  }

  /** Strings of one length are compared first, whatever follows them. */
  lemma {:induction false} LessSplits(a: string, b: string, c: string, d: string)
    requires |a| == |b|
    ensures StringLess(a + c, b + d) == (StringLess(a, b) || (a == b && StringLess(c, d)))
  {
    if a == "" {
      assert a + c == c && b + d == d;
    } else {
      LessSplits(a[1..], b[1..], c, d);
      assert (a + c)[1..] == a[1..] + c && (b + d)[1..] == b[1..] + d;
      assert a == [a[0]] + a[1..] && b == [b[0]] + b[1..];
    }
  }

  lemma DigitOrder(a: nat, b: nat)
    requires a < 10 && b < 10
    ensures StringLess([('0' as int + a) as char], [('0' as int + b) as char]) == (a < b)
  {
    var c, d := ('0' as int + a) as char, ('0' as int + b) as char;
    OneCharOrder(c, d);
  }

  lemma OneCharOrder(c: char, d: char)
    ensures StringLess([c], [d]) == (c < d)
  {
    var x, y := [c], [d];
    assert x[1..] == "" && y[1..] == "";
    assert Lexicographic(CharLess, x, y) == if x[0] == y[0] then Lexicographic(CharLess, x[1..], y[1..]) else CharLess(x[0], y[0]);
  }

  lemma {:induction false} DigitsOrder(n: nat, m: nat, width: nat)
    requires n < Power(width) && m < Power(width)
    ensures StringLess(Digits(n, width), Digits(m, width)) == (n < m)
    ensures Digits(n, width) == Digits(m, width) <==> n == m
  {
    if width > 0 {
      DigitsOrder(n / 10, m / 10, width - 1);
      DigitsWidth(n / 10, width - 1);
      DigitsWidth(m / 10, width - 1);
      var a, b := Digits(n / 10, width - 1), Digits(m / 10, width - 1);
      var c, d := ('0' as int + n % 10) as char, ('0' as int + m % 10) as char;
      LessSplits(a, b, [c], [d]);
      DigitOrder(n % 10, m % 10);
      SameSnoc(a, b, c, d);
      hide StringLess;
    }
  }

  lemma SameSnoc(a: string, b: string, c: char, d: char)
    ensures a + [c] == b + [d] <==> a == b && c == d
  {
    if a + [c] == b + [d] {
      assert |a| == |b|;
      assert a == (a + [c])[..|a|] && b == (b + [d])[..|b|];
      assert c == (a + [c])[|a|] && d == (b + [d])[|b|];
    }
  }

  lemma FieldOrder(n: nat, m: nat, width: nat, rest: string, other: string)
    requires n < Power(width) && m < Power(width)
    ensures StringLess(Digits(n, width) + rest, Digits(m, width) + other) == (n < m || (n == m && StringLess(rest, other)))
  {
    DigitsOrder(n, m, width);
    DigitsWidth(n, width);
    DigitsWidth(m, width);
    LessSplits(Digits(n, width), Digits(m, width), rest, other);
  }

  lemma Powers()
    ensures Power(2) == 100 && Power(4) == 10000
  {
    assert Power(1) == 10 && Power(2) == 100 && Power(3) == 1000;
  }

  /** Stamps sort as the instants they stand for. */
  lemma StampOrder(t: Instant, u: Instant)
    requires t.Valid() && u.Valid()
    ensures StringLess(Stamp(t), Stamp(u)) == Before(t, u)
  {
    Powers();
    hide StringLess, Digits, Power;
    var t6, u6 := Digits(t.second, 2) + "Z", Digits(u.second, 2) + "Z";
    var t5, u5 := Digits(t.minute, 2) + t6, Digits(u.minute, 2) + u6;
    var t4, u4 := Digits(t.hour, 2) + t5, Digits(u.hour, 2) + u5;
    var t3, u3 := Digits(t.day, 2) + ("T" + t4), Digits(u.day, 2) + ("T" + u4);
    var t2, u2 := Digits(t.month, 2) + t3, Digits(u.month, 2) + u3;
    NotLessThanItself("Z");
    FieldOrder(t.second, u.second, 2, "Z", "Z");
    FieldOrder(t.minute, u.minute, 2, t6, u6);
    FieldOrder(t.hour, u.hour, 2, t5, u5);
    LessCancelsPrefix("T", t4, u4);
    FieldOrder(t.day, u.day, 2, "T" + t4, "T" + u4);
    FieldOrder(t.month, u.month, 2, t3, u3);
    FieldOrder(t.year, u.year, 4, t2, u2);
  }

  /** How a stamp is written. */
  lemma StampExample()
    ensures Stamp(Instant(2024, 1, 31, 23, 59, 7)) == "20240131T235907Z"
  {
    hide *;
    TwoDigits(1);
    TwoDigits(31);
    TwoDigits(23);
    TwoDigits(59);
    TwoDigits(7);
    TwoDigits(20);
    TwoDigits(24);
    YearOfExample();
    StampOf(Instant(2024, 1, 31, 23, 59, 7), "2024", "01", "31", "23", "59", "07");
    assert "2024" + ("01" + ("31" + ("T" + ("23" + ("59" + ("07" + "Z")))))) == "20240131T235907Z";
  }

  lemma StampOf(t: Instant, year: string, month: string, day: string, hour: string, minute: string, second: string)
    requires Digits(t.year, 4) == year && Digits(t.month, 2) == month && Digits(t.day, 2) == day
    requires Digits(t.hour, 2) == hour && Digits(t.minute, 2) == minute && Digits(t.second, 2) == second
    ensures Stamp(t) == year + (month + (day + ("T" + (hour + (minute + (second + "Z"))))))
  {
    hide Digits;
  }

  lemma YearOfExample()
    ensures Digits(2024, 4) == "2024"
  {
    TwoDigits(20);
    assert Digits(202, 3) == Digits(20, 2) + ['2'];
    assert Digits(2024, 4) == Digits(202, 3) + ['4'];
  }

  lemma TwoDigits(n: nat)
    requires n < 100
    ensures Digits(n, 2) == [('0' as int + n / 10) as char, ('0' as int + n % 10) as char]
  {
    assert Digits(n / 10, 1) == Digits(n / 10 / 10, 0) + [('0' as int + n / 10 % 10) as char];
  }

  lemma NotLessThanItself(s: string)
    ensures !StringLess(s, s)
  {
    StringLessIsStrictOrder();
  }
}
