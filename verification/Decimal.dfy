/** Printing a 32-bit number in decimal and parsing it back. */
module Decimal {
  import opened Bits

  function Pow10(n: nat): (p: nat)
    ensures p >= 1
  {
    if n == 0 then 1 else 10 * Pow10(n - 1)
  }

  /** The number of decimal digits; zero has one. */
  function Width(n: nat): (w: nat)
    ensures w >= 1
  {
    if n < 10 then 1 else 1 + Width(n / 10)
  }

  predicate IsDigit(c: char) { '0' <= c <= '9' }

  function DigitValue(c: char): nat
    requires IsDigit(c)
  {
    c as nat - '0' as nat
  }

  predicate AllDigits(s: string) {
    forall i :: 0 <= i < |s| ==> IsDigit(s[i])
  }

  /** The value of a digit string. */
  function Value(s: string): nat
    requires AllDigits(s)
  {
    if s == [] then 0 else DigitValue(s[0]) * Pow10(|s| - 1) + Value(s[1..])
  }

  // ---------------------------------------------------------------- printing

  function DigitChar(d: nat): (c: char)
    requires d < 10
    ensures IsDigit(c) && DigitValue(c) == d
  {
    '0' + d as char
  }

  /** The decimal numeral of `n`, without leading zeros. */
  function Printed(n: nat): (s: string)
    ensures |s| == Width(n)
  {
    if n < 10 then [DigitChar(n)] else Printed(n / 10) + [DigitChar(n % 10)]
  }

  lemma {:induction false} ValueAppend(s: string, c: char)
    requires AllDigits(s) && IsDigit(c)
    ensures AllDigits(s + [c]) && Value(s + [c]) == 10 * Value(s) + DigitValue(c)
  {
    if s != [] {
      assert (s + [c])[1..] == s[1..] + [c];
      ValueAppend(s[1..], c);
      assert Pow10(|s|) == 10 * Pow10(|s| - 1);
      TenTimes(DigitValue(s[0]), Pow10(|s| - 1), Value(s[1..]), DigitValue(c));
    }
  }

  lemma TenTimes(d: nat, p: nat, v: nat, e: nat)
    ensures d * (10 * p) + (10 * v + e) == 10 * (d * p + v) + e
  {
    assert d * (10 * p) == 10 * (d * p);
  }

  /** The numeral has the value it was printed from, the length the digit count gives, and no leading
      zero unless it is zero itself. */
  lemma {:induction false} PrintedValue(n: nat)
    ensures AllDigits(Printed(n)) && Value(Printed(n)) == n
    ensures n > 0 ==> Printed(n)[0] != '0'
  {
    if n >= 10 {
      PrintedValue(n / 10);
      ValueAppend(Printed(n / 10), DigitChar(n % 10));
    }
  }

  /** num_digits for base ten; the counter is a byte. */
  method NumDigits(num: nat) returns (counter: nat)
    requires num < WORD
    ensures counter == |Printed(num)| <= 10
  {
    WidthBound(num);
    var n := num;
    var again := true;
    counter := 0;
    while again
      invariant counter <= Width(num)
      invariant Width(num) == if again then counter + Width(n) else counter
      decreases again, n
    {
      n := n / 10;
      counter := (counter + 1) % 0x100;
      again := n > 0;
    }
  }

  lemma {:induction false} WidthIff(n: nat, k: nat)
    requires k >= 1
    ensures Width(n) <= k <==> n < Pow10(k)
  {
    if k > 1 && n >= 10 {
      WidthIff(n / 10, k - 1);
    }
  }

  lemma WidthBound(n: nat)
    requires n < WORD
    ensures Width(n) <= 10
  {
    WidthIff(n, 10);
    TenToTheNinth();
  }

  lemma TenToTheNinth()
    ensures Pow10(9) == 1000000000
  {
    assert Pow10(5) == 100000;
    assert Pow10(9) == 10 * (10 * (10 * (10 * Pow10(5))));
  }

  const MAX_ROWS: nat := 25
  const MAX_COLS: nat := 80

  /** The console's page of characters (without their colours) and its cursor. */
  class Console {
    const page: array<char>
    var row: nat
    var col: nat

    ghost predicate Valid()
      reads this
    {
      page.Length == MAX_ROWS * MAX_COLS && row < MAX_ROWS && col < MAX_COLS
    }

    function Cursor(): nat
      reads this
    {
      row * MAX_COLS + col
    }

    constructor ()
      ensures Valid() && fresh(page) && Cursor() == 0
    {
      page := new char[MAX_ROWS * MAX_COLS](i => ' ');
      row, col := 0, 0;
    }

    /** move, by any amount the 32-bit sum can hold. The cursor gets to the cell that many places on as long
        as it has to cross at most one end of a row and, going back, comes to the start of the row above; the
        column is a byte. Behind the last row the page scrolls, but the row stays below it. */
    method Move(amt: int)
      requires Valid() && -0x8000_0000 <= amt && col + amt < 0x8000_0000
      modifies this, page
      ensures var to := old(col) + amt;
              && (Cursor() == old(Cursor()) + amt <==>
                    0 <= to < MAX_COLS + 0x100 || (to + MAX_COLS == 0 && old(row) > 0))
              && (to < 0 ==> col == 0 && row == if old(row) > 0 then old(row) - 1 else 0)
              && (to >= MAX_COLS ==> row == old(row) + 1 && col < 0x100)
      ensures 0 <= amt < MAX_COLS ==>
                && Cursor() == old(Cursor()) + amt && (Valid() <==> Cursor() < MAX_ROWS * MAX_COLS)
                && (row < MAX_ROWS <==> Cursor() < MAX_ROWS * MAX_COLS)
      ensures page[..] == if row < MAX_ROWS then old(page[..]) else Scrolled(old(page[..]))
    {
      var newCol := col + amt;
      if newCol < 0 {
        col := 0;
        if row > 0 {
          row := row - 1;
        }
      } else if newCol >= MAX_COLS {
        col := (newCol - MAX_COLS) % 0x100;
        row := row + 1;
        if row == MAX_ROWS {
          Scroll();
        }
      } else {
        col := newCol;
      }
    }

    /** scroll: every row moves up by one and the last is blank. */
    method Scroll()
      requires page.Length == MAX_ROWS * MAX_COLS
      modifies page
      ensures page[..] == Scrolled(old(page[..]))
      ensures forall k :: 0 <= k < 1920 ==> page[k] == old(page[k + 80])
      ensures forall k :: 1920 <= k < 2000 ==> page[k] == ' '
    {
      var i := 0;
      while i < MAX_ROWS - 1
        invariant 0 <= i <= MAX_ROWS - 1
        invariant forall k :: 0 <= k < i * MAX_COLS ==> page[k] == old(page[k + MAX_COLS])
        invariant forall k :: i * MAX_COLS <= k < page.Length ==> page[k] == old(page[k])
      {
        var j := 0;
        while j < MAX_COLS
          invariant 0 <= j <= MAX_COLS
          invariant forall k :: 0 <= k < i * MAX_COLS + j ==> page[k] == old(page[k + MAX_COLS])
          invariant forall k :: i * MAX_COLS + j <= k < page.Length ==> page[k] == old(page[k])
        {
          page[i * MAX_COLS + j] := page[(i + 1) * MAX_COLS + j];
          j := j + 1;
        }
        i := i + 1;
      }
      var j := 0;
      while j < MAX_COLS
        invariant 0 <= j <= MAX_COLS
        invariant forall k :: 0 <= k < (MAX_ROWS - 1) * MAX_COLS ==> page[k] == old(page[k + MAX_COLS])
        invariant forall k :: (MAX_ROWS - 1) * MAX_COLS <= k < (MAX_ROWS - 1) * MAX_COLS + j ==> page[k] == ' '
      {
        page[(MAX_ROWS - 1) * MAX_COLS + j] := ' ';
        j := j + 1;
      }
    }

    /** put_char_back: at the top left corner the cursor stays where it is. */
    method PutCharBack(ch: char)
      requires Valid()
      modifies this, page
      ensures Valid() && page[..] == old(page[..])[old(Cursor()) := ch]
      ensures Cursor() == if old(Cursor()) == 0 then 0 else old(Cursor()) - 1
    {
      page[col + row * MAX_COLS] := ch;
      if col == 0 {
        if row != 0 {
          col := MAX_COLS - 1;
          row := row - 1;
        }
      } else {
        col := col - 1;
      }
    }

    /** put(u32): the numeral appears at the cursor and no other cell changes, although it is written
        from its last digit back. The cursor ends after the numeral, except that a numeral printed in
        the top left corner leaves it one cell further. If that is no longer on the page, the page
        scrolls, but the cursor stays below it. */
    method PutNumber(num: nat)
      requires Valid() && num < WORD
      requires Cursor() + Width(num) <= MAX_ROWS * MAX_COLS
      modifies this, page
      ensures Cursor() == old(Cursor()) + |Printed(num)| + (if old(Cursor()) == 0 then 1 else 0)
      ensures Valid() <==> Cursor() < MAX_ROWS * MAX_COLS
      ensures var cells := Overlay(old(page[..]), old(Cursor()), Printed(num));
              page[..] == if Cursor() < MAX_ROWS * MAX_COLS then cells else Scrolled(cells)
      ensures var start, up := old(Cursor()), if Cursor() < 2000 then 0 else 80;
              && (forall i :: 0 <= i < |Printed(num)| && start + i >= up ==> page[start + i - up] == Printed(num)[i])
              && (forall k :: up <= k < 2000 && !(start <= k < start + |Printed(num)|) ==> page[k - up] == old(page[k]))
              && (forall k :: 2000 - up <= k < 2000 ==> page[k] == ' ')
    {
      ghost var start := Cursor();
      var digits := NumDigits(num);
      Move(digits - 1);
      PutDigits(num, start);
      ghost var cells := page[..];
      Move(digits + 1);
      OnPage(old(page[..]), start, Printed(num), cells);
      assert page[..] == if Cursor() < 2000 then cells else cells[80..] + seq(80, i => ' ');
    }

    /** The loop of put(u32). */
    method PutDigits(num: nat, ghost start: nat)
      requires Valid() && start + Width(num) <= MAX_ROWS * MAX_COLS && Cursor() == start + Width(num) - 1
      modifies this, page
      ensures Valid() && Cursor() == if start > 0 then start - 1 else 0
      ensures page[..] == Overlay(old(page[..]), start, Printed(num))
    {
      ghost var w := Width(num);
      var n := num;
      var again := true;
      ghost var done := "";
      while again
        invariant Valid()
        invariant Printed(num) == if again then Printed(n) + done else done
        invariant |done| <= w
        invariant page[..] == Overlay(old(page[..]), start + w - |done|, done)
        invariant Cursor() == if again || start > 0 then start + w - 1 - |done| else 0
        decreases again, n
      {
        ghost var at := Cursor();
        var digit := DigitChar(n % 10);
        PutCharBack(digit);
        OverlayBack(old(page[..]), at, digit, done);
        PrintedStep(n, done);
        done := [digit] + done;
        n := n / 10;
        again := n > 0;
      }
    }
  }

  lemma PrintedStep(n: nat, done: string)
    ensures Printed(n) + done ==
            if n / 10 > 0 then Printed(n / 10) + ([DigitChar(n % 10)] + done) else [DigitChar(n % 10)] + done
  {
    if n >= 10 {
      assert (Printed(n / 10) + [DigitChar(n % 10)]) + done == Printed(n / 10) + ([DigitChar(n % 10)] + done);
    }
  }

  /** The page after scrolling. */
  function Scrolled(cells: string): string
    requires |cells| == MAX_ROWS * MAX_COLS
  {
    cells[MAX_COLS..] + seq(MAX_COLS, i => ' ')
  }

  /** `cells` with `text` written from `at` on. */
  function Overlay(cells: string, at: nat, text: string): (r: string)
    requires at + |text| <= |cells|
    ensures |r| == |cells|
  {
    cells[..at] + text + cells[at + |text|..]
  }

  lemma OnPage(before: string, at: nat, text: string, cells: string)
    requires at + |text| <= |before| && cells == Overlay(before, at, text)
    ensures forall i :: 0 <= i < |text| ==> cells[at + i] == text[i]
    ensures forall k :: 0 <= k < |before| && !(at <= k < at + |text|) ==> cells[k] == before[k]
  {
  }

  lemma OverlayBack(cells: string, at: nat, c: char, text: string)
    requires at + 1 + |text| <= |cells|
    ensures Overlay(cells, at + 1, text)[at := c] == Overlay(cells, at, [c] + text)
  {
  }

  // ---------------------------------------------------------------- parsing

  datatype Parsed = Number(value: nat) | Invalid

  /** into_u32: from the last digit up, in 32-bit arithmetic, rejecting a sum that came out smaller. */
  method IntoU32(s: string) returns (r: Parsed)
    ensures r == ParseAsWritten(s)
    ensures r == Meaning(s) <==> !Missed(s)
    ensures Missed(s) ==> r == Number(Value(s) % WORD)
  {
    ParseRight(s);
    if |s| > 10 || |s| == 0 {
      return Invalid;
    }
    var place := |s| - 1;
    var mult := 1;
    var value := 0;
    var prev := value;
    while place >= 0
      invariant -1 <= place < |s|
      invariant 0 <= mult < WORD && 0 <= value < WORD && prev == value
      invariant ParseAsWritten(s) == ParseFrom(s, place + 1, mult, value)
      decreases place
    {
      if s[place] > '9' || s[place] < '0' {
        return Invalid;
      }
      value := (value + (DigitValue(s[place]) * mult) % WORD) % WORD;
      if value < prev {
        return Invalid;
      }
      prev := value;
      mult := mult * 10 % WORD;
      place := place - 1;
    }
    return Number(value);
  }

  function ParseAsWritten(s: string): Parsed {
    if |s| > 10 || |s| == 0 then Invalid else ParseFrom(s, |s|, 1, 0)
  }

  /** The loop with `k` characters still to do. */
  function ParseFrom(s: string, k: nat, mult: nat, value: nat): Parsed
    requires k <= |s|
  {
    if k == 0 then Number(value)
    else if !IsDigit(s[k - 1]) then Invalid
    else
      var value' := (value + (DigitValue(s[k - 1]) * mult) % WORD) % WORD;
      if value' < value then Invalid else ParseFrom(s, k - 1, mult * 10 % WORD, value')
  }

  // ---------------------------------------------------------------- what the parser gets right

  lemma {:induction false} NonDigitInvalid(s: string, k: nat, mult: nat, value: nat, i: nat)
    requires i < k <= |s| && !IsDigit(s[i])
    ensures ParseFrom(s, k, mult, value) == Invalid
    decreases k
  {
    if i < k - 1 && IsDigit(s[k - 1]) {
      NonDigitInvalid(s, k - 1, mult * 10 % WORD, (value + (DigitValue(s[k - 1]) * mult) % WORD) % WORD, i);
    }
  }

  lemma {:induction false} ValueBound(s: string)
    requires AllDigits(s)
    ensures Value(s) < Pow10(|s|)
  {
    if s != [] {
      ValueBound(s[1..]);
      LeadingDigit(DigitValue(s[0]), Pow10(|s| - 1), Value(s[1..]));
    }
  }

  lemma LeadingDigit(d: nat, p: nat, v: nat)
    requires d <= 9 && v < p
    ensures d * p + v < 10 * p
  {
    assert d * p <= 9 * p;
  }

  lemma {:induction false} Pow10Small(n: nat)
    requires n <= 9
    ensures Pow10(n) <= 1000000000
    decreases 9 - n
  {
    TenToTheNinth();
    if n < 9 {
      Pow10Small(n + 1);
    }
  }

  /** No sum of at most nine digits overflows. */
  lemma {:induction false} LastNine(s: string, k: nat)
    requires AllDigits(s) && k <= |s| <= k + 9
    ensures ParseFrom(s, |s|, 1, 0) == ParseFrom(s, k, Pow10(|s| - k), Value(s[k..]))
    decreases |s| - k
  {
    if k < |s| {
      LastNine(s, k + 1);
      NextPlace(s, k);
      ParseStep(s, k, Pow10(|s| - k - 1), Value(s[k + 1..]));
    }
  }

  lemma NextPlace(s: string, k: nat)
    requires AllDigits(s) && k < |s| <= k + 9
    ensures Pow10(|s| - k) == 10 * Pow10(|s| - k - 1) <= 1000000000
    ensures Value(s[k..]) == DigitValue(s[k]) * Pow10(|s| - k - 1) + Value(s[k + 1..]) < 1000000000
  {
    assert s[k..][1..] == s[k + 1..];
    ValueBound(s[k..]);
    Pow10Small(|s| - k);
  }

  lemma ParseStep(s: string, k: nat, p: nat, v: nat)
    requires k < |s| && IsDigit(s[k]) && 10 * p <= 1000000000
    requires DigitValue(s[k]) * p + v < 1000000000
    ensures ParseFrom(s, k + 1, p, v) == ParseFrom(s, k, 10 * p, DigitValue(s[k]) * p + v)
  {
    var dp := DigitValue(s[k]) * p;
    assert dp % WORD == dp && (v + dp) % WORD == v + dp && p * 10 % WORD == 10 * p;
  }

  /** What a parser of 32-bit numbers of at most ten characters should answer. */
  function Meaning(s: string): Parsed {
    if 0 < |s| <= 10 && AllDigits(s) && Value(s) < WORD then Number(Value(s)) else Invalid
  }

  /** The numerals whose overflow the comparison misses: ten digits, the first of them at least 5, and
      not from 8589934592 (twice 2^32) up to 8999999999. */
  predicate Missed(s: string) {
    |s| == 10 && AllDigits(s) && s[0] >= '5' && !(s[0] == '8' && Value(s[1..]) >= 589934592)
  }

  /** The parser as written is right exactly when the string is not one of those. */
  lemma ParseRight(s: string)
    ensures ParseAsWritten(s) == Meaning(s) <==> !Missed(s)
    ensures Missed(s) ==> ParseAsWritten(s) == Number(Value(s) % WORD)
  {
    if 0 < |s| <= 10 && !AllDigits(s) {
      var i :| 0 <= i < |s| && !IsDigit(s[i]);
      NonDigitInvalid(s, |s|, 1, 0, i);
    } else if 0 < |s| <= 9 {
      LastNine(s, 0);
      assert s[0..] == s;
      ValueBound(s);
      Pow10Small(|s|);
    } else if |s| == 10 {
      TenDigits(s);
      FirstOfTen(DigitValue(s[0]), Value(s[1..]));
    }
  }

  lemma TenDigits(s: string)
    requires |s| == 10 && AllDigits(s)
    ensures Value(s[1..]) < 1000000000 && Value(s) == DigitValue(s[0]) * 1000000000 + Value(s[1..])
    ensures var sum := (Value(s[1..]) + (DigitValue(s[0]) * 1000000000) % WORD) % WORD;
            ParseAsWritten(s) == if sum < Value(s[1..]) then Invalid else Number(sum)
  {
    LastNine(s, 1);
    ValueBound(s[1..]);
    TenToTheNinth();
  }

  lemma FirstOfTen(d: nat, v: nat)
    requires d <= 9 && v < 1000000000
    ensures var sum := (v + (d * 1000000000) % WORD) % WORD;
            && ((if sum < v then d * 1000000000 + v >= WORD else sum == d * 1000000000 + v)
                <==> !(d >= 5 && !(d == 8 && v >= 589934592)))
            && (d >= 5 && !(d == 8 && v >= 589934592) ==> sum >= v && sum == (d * 1000000000 + v) % WORD)
  {
  }

  /** Every 32-bit number, printed and parsed as written, comes back. */
  lemma PrintParse(n: nat)
    requires n < WORD
    ensures ParseAsWritten(Printed(n)) == Number(n)
  {
    var s := Printed(n);
    PrintedValue(n);
    WidthBound(n);
    ParseRight(s);
    if |s| == 10 {
      TenDigits(s);
    }
  }

  /** 5000000000 is taken for 705032704. */
  lemma FiveBillion()
    ensures ParseAsWritten("5000000000") == Number(705032704)
  {
    var s := "5000000000";
    ZerosValue(s[1..]);
    TenDigits(s);
  }

  lemma {:induction false} ZerosValue(s: string)
    requires forall i :: 0 <= i < |s| ==> s[i] == '0'
    ensures AllDigits(s) && Value(s) == 0
  {
    if s != [] {
      ZerosValue(s[1..]);
    }
  }
}
