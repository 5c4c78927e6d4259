/** The printed keys of the key-value store.

    An inode's metadata lives under "%lu", a file chunk or a directory partition under
    "%lu.%lu" / "%lu.%d".  Everything the file system promises about one inode not disturbing
    another rests on these strings being injective. */
module Keys {

  datatype Key = InodeKey(h: nat) | SubKey(h: nat, k: nat)

  function Digit(n: nat): (c: char)
    requires n < 10
    ensures '0' <= c <= '9'
    ensures DigitValue(c) == n
  {
    ('0' as int + n) as char
  }

  function DigitValue(c: char): nat
  {
    if '0' <= c <= '9' then c as int - '0' as int else 0
  }

  /** `snprintf("%lu")`. */
  function Decimal(n: nat): (s: string)
    ensures s != []
    ensures forall i :: 0 <= i < |s| ==> '0' <= s[i] <= '9'
    ensures Undecimal(s) == n
  {
    if n < 10 then [Digit(n)]
    else
      var s := Decimal(n / 10) + [Digit(n % 10)];
      assert s[..|s| - 1] == Decimal(n / 10);
      s
  }

  function Undecimal(s: string): nat
  {
    if s == [] then 0 else 10 * Undecimal(s[..|s| - 1]) + DigitValue(s[|s| - 1])
  }

  function FirstDot(s: string): (i: nat)
    ensures i <= |s|
    ensures forall j :: 0 <= j < i ==> s[j] != '.'
    ensures i < |s| ==> s[i] == '.'
  {
    if s == [] then 0 else if s[0] == '.' then 0 else 1 + FirstDot(s[1..])
  }

  /** Recovers the key from its printed form: cut at the first dot. */
  function Parse(s: string): Key
  {
    var i := FirstDot(s);
    if i == |s| then InodeKey(Undecimal(s))
    else SubKey(Undecimal(s[..i]), Undecimal(s[i + 1..]))
  }

  lemma ParsePrintedSub(h: nat, k: nat)
    ensures Parse(Decimal(h) + "." + Decimal(k)) == SubKey(h, k)
  {
    var a, b := Decimal(h), Decimal(k);
    var s := a + "." + b;
    var i := FirstDot(s);
    assert s[|a|] == '.';
    assert forall j :: 0 <= j < |a| ==> s[j] == a[j];
    assert i == |a|;
    assert s[..i] == a;
    assert s[i + 1..] == b;
  }

  /** The store key of an inode, chunk or partition; its contract makes printing injective. */
  function Print(key: Key): (s: string)
    ensures Parse(s) == key
  {
    match key
    case InodeKey(h) => Decimal(h)
    case SubKey(h, k) => ParsePrintedSub(h, k); Decimal(h) + "." + Decimal(k)
  }

  /** Distinct inodes, chunks and partitions never share a store key. */
  lemma PrintInjective(a: Key, b: Key)
    ensures Print(a) == Print(b) <==> a == b
  {
    assert Parse(Print(a)) == a && Parse(Print(b)) == b;
  }

  /** `%lu` in base ten: one digit as itself, and each further digit appended; `%lu.%lu` is two of
      them around a dot. */
  lemma PrintedForm(h: nat, k: nat, d: nat)
    requires d < 10
    ensures Print(InodeKey(d)) == ["0123456789"[d]]
    ensures h > 0 ==> Print(InodeKey(10 * h + d)) == Print(InodeKey(h)) + ["0123456789"[d]]
    ensures Print(SubKey(h, k)) == Print(InodeKey(h)) + "." + Print(InodeKey(k))
  {
    if h > 0 {
      assert (10 * h + d) / 10 == h && (10 * h + d) % 10 == d;
    }
  }
}
