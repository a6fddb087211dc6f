/** The names of rotated log files: where a name is split at its extension, and the name of the i-th
    older file. */
module FileNames {

  const FOLDER_SEPARATOR := '/'

  /** `rfind`: the last position of a character, or -1. */
  function LastIndexOf(s: string, c: char): (i: int)
    ensures -1 <= i < |s|
    ensures i >= 0 ==> s[i] == c
    ensures forall k :: i < k < |s| ==> s[k] != c
  {
    if s == "" then -1
    else if s[|s| - 1] == c then |s| - 1
    else LastIndexOf(s[..|s| - 1], c)
  }

  /** `split_by_extension`: the position where the extension begins; the length of the name when it
      has none. */
  function ExtensionAt(name: string): (at: nat)
    ensures at <= |name|
  {
    var dot := LastIndexOf(name, '.');
    if dot == -1 || dot == 0 || dot == |name| - 1 then |name|
    else
      var folder := LastIndexOf(name, FOLDER_SEPARATOR);
      if folder != -1 && folder >= dot - 1 then |name| else dot
  }

  function Stem(name: string): string { name[..ExtensionAt(name)] }

  function Extension(name: string): string { name[ExtensionAt(name)..] }

  /** What counts as an extension: at least one character after the last dot of the name, in the last
      path component, and not the component that begins with that dot. */
  predicate IsExtensionAt(name: string, at: nat) {
    && 0 < at < |name| - 1
    && name[at] == '.'
    && (forall k :: at < k < |name| ==> name[k] != '.' && name[k] != FOLDER_SEPARATOR)
    && name[at - 1] != FOLDER_SEPARATOR
  }

  /** The split loses nothing, and it is at an extension exactly when the name has one. */
  lemma SplitIsExact(name: string)
    ensures Stem(name) + Extension(name) == name
    ensures ExtensionAt(name) < |name| ==> IsExtensionAt(name, ExtensionAt(name))
    ensures forall at: nat :: IsExtensionAt(name, at) ==> at == ExtensionAt(name)
  {
    forall at: nat | IsExtensionAt(name, at)
      ensures at == ExtensionAt(name)
    {
      OnlyExtension(name, at);
    }
  }

  lemma OnlyExtension(name: string, at: nat)
    requires IsExtensionAt(name, at)
    ensures at == ExtensionAt(name)
  {
    var dot := LastIndexOf(name, '.');
    assert dot == at;
    var folder := LastIndexOf(name, FOLDER_SEPARATOR);
    assert folder < at - 1;
  }

  // ---------- Decimal numbers ----------

  function Digit(d: nat): char
    requires d < 10
  {
    (('0' as int) + d) as char
  }

  function Decimal(n: nat): (s: string)
    ensures s != ""
  {
    if n < 10 then [Digit(n)] else Decimal(n / 10) + [Digit(n % 10)]
  }

  function Value(s: string): int {
    if s == "" then 0 else Value(s[..|s| - 1]) * 10 + (s[|s| - 1] as int - '0' as int)
  }

  lemma {:induction false} DecimalRoundTrip(n: nat)
    ensures Value(Decimal(n)) == n
  {
    if n < 10 {
      assert Decimal(n)[..0] == "";
    } else {
      DecimalRoundTrip(n / 10);
      var s := Decimal(n);
      assert s[..|s| - 1] == Decimal(n / 10);
    }
  }

  // ---------- Generated names ----------

  /** `calc_filename`. */
  function Rotated(name: string, i: nat): string {
    if i == 0 then name else Stem(name) + "." + Decimal(i) + Extension(name)
  }

  /** Distinct indices have distinct names, so no rotation overwrites a file it should keep. */
  lemma NamesAreDistinct(name: string, i: nat, j: nat)
    requires Rotated(name, i) == Rotated(name, j)
    ensures i == j
  {
    hide Decimal, Value, ExtensionAt;
    if i != 0 && j != 0 {
      MiddleIsUnique(Stem(name), ".", Decimal(i), Decimal(j), Extension(name));
      DecimalRoundTrip(i);
      DecimalRoundTrip(j);
    }
  }

  lemma MiddleIsUnique(a: string, d: string, x: string, y: string, b: string)
    requires a + d + x + b == a + d + y + b
    ensures x == y
  {
    var s, t := a + d + x + b, a + d + y + b;
    assert |x| == |y|;
    assert s[|a + d|..|a + d| + |x|] == x;
    assert t[|a + d|..|a + d| + |y|] == y;
  }

  // ---------- The form of generated names ----------

  lemma {:induction false} DecimalIsDigits(n: nat)
    ensures forall c <- Decimal(n) :: '0' <= c <= '9'
  {
    if n < 10 {
    } else {
      DecimalIsDigits(n / 10);
    }
  }

  /** The index goes between the stem and the extension, which stays the extension of the new name; a name
      without one gets the index at its end. */
  lemma RotatedKeepsExtension(name: string, i: nat)
    requires i > 0
    ensures Rotated(name, i) == Stem(name) + "." + Decimal(i) + Extension(name)
    ensures Extension(name) == "" ==> Rotated(name, i) == name + "." + Decimal(i)
    ensures Extension(name) != "" ==>
      Extension(Rotated(name, i)) == Extension(name) && Stem(Rotated(name, i)) == Stem(name) + "." + Decimal(i)
  {
    hide Decimal;
    SplitIsExact(name);
    if Extension(name) != "" {
      var stem, ext := Stem(name) + "." + Decimal(i), Extension(name);
      var rotated := Rotated(name, i);
      DecimalIsDigits(i);
      assert rotated == stem + ext;
      assert rotated[|stem| - 1] == Decimal(i)[|Decimal(i)| - 1] && Decimal(i)[|Decimal(i)| - 1] in Decimal(i);
      assert IsExtensionAt(name, ExtensionAt(name));
      assert forall k :: 0 < k < |ext| ==> ext[k] == name[ExtensionAt(name) + k];
      assert IsExtensionAt(rotated, |stem|);
      OnlyExtension(rotated, |stem|);
    }
  }
}
