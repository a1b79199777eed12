/** The colour a subject is drawn in: a 32-bit polynomial hash of the
    subject's name, taken over its UTF-16 code units, picks one of seven
    Tailwind swatches. */
module Colors {
  import opened Wrappers

  /** One palette entry: background, text and ring classes. */
  datatype Swatch = Swatch(bg: string, text: string, ring: string)

  const Palette: seq<Swatch> := [
    Swatch("bg-blue-100", "text-blue-800", "ring-blue-200"),
    Swatch("bg-green-100", "text-green-800", "ring-green-200"),
    Swatch("bg-purple-100", "text-purple-800", "ring-purple-200"),
    Swatch("bg-amber-100", "text-amber-800", "ring-amber-200"),
    Swatch("bg-pink-100", "text-pink-800", "ring-pink-200"),
    Swatch("bg-cyan-100", "text-cyan-800", "ring-cyan-200"),
    Swatch("bg-teal-100", "text-teal-800", "ring-teal-200")
  ]

  const TwoTo32: int := 0x1_0000_0000
  const TwoTo53: int := 0x20_0000_0000_0000

  /** The UTF-16 code units of one character: itself below U+10000, a
      surrogate pair above. */
  function UnitsOf(c: char): (r: seq<int>)
    ensures 1 <= |r| <= 2
    ensures |r| == 1 <==> (c as int) < 0x1_0000
    ensures |r| == 1 ==> r[0] == c as int
    ensures forall i :: 0 <= i < |r| ==> 0 <= r[i] < 0x1_0000
  {
    var n := c as int;
    if n < 0x1_0000 then [n]
    else [0xD800 + (n - 0x1_0000) / 0x400, 0xDC00 + (n - 0x1_0000) % 0x400]
  }

  /** What `charCodeAt` walks over: the UTF-16 code units of a string. */
  function CodeUnits(s: string): (r: seq<int>)
    ensures |r| >= |s|
    ensures forall i :: 0 <= i < |r| ==> 0 <= r[i] < 0x1_0000
  {
    if s == [] then [] else CodeUnits(s[..|s| - 1]) + UnitsOf(s[|s| - 1])
  }

  /** A string of characters below U+10000 has one code unit per character,
      and that unit is the character's code. */
  lemma {:induction false} CodeUnitsOfBasic(s: string)
    requires forall i :: 0 <= i < |s| ==> (s[i] as int) < 0x1_0000
    ensures |CodeUnits(s)| == |s|
    ensures forall i :: 0 <= i < |s| ==> CodeUnits(s)[i] == s[i] as int
  {
    if s != [] {
      CodeUnitsOfBasic(s[..|s| - 1]);
    }
  }

  /** One round of the loop: `(hash * 31 + unit) >>> 0`. */
  function HashStep(hash: int, unit: int): int {
    (hash * 31 + unit) % TwoTo32
  }

  /** The hash after all code units of `us`, starting from 0. */
  function HashOf(us: seq<int>): (h: int)
    ensures 0 <= h < TwoTo32
  {
    if us == [] then 0 else HashStep(HashOf(us[..|us| - 1]), us[|us| - 1])
  }

  /** The polynomial the hash reduces, written without any reduction:
      `us[0]*31^(n-1) + ... + us[n-1]`. */
  function Polynomial(us: seq<int>): int {
    if us == [] then 0 else Polynomial(us[..|us| - 1]) * 31 + us[|us| - 1]
  }

  /** Reducing after every step is the same as reducing once at the end. */
  lemma {:induction false} HashIsPolynomialMod(us: seq<int>)
    ensures HashOf(us) == Polynomial(us) % TwoTo32
  {
    if us != [] {
      var p := us[..|us| - 1];
      var u := us[|us| - 1];
      HashIsPolynomialMod(p);
      var q := Polynomial(p) / TwoTo32;
      assert Polynomial(p) == q * TwoTo32 + HashOf(p);
      assert Polynomial(us) == HashOf(p) * 31 + u + (q * 31) * TwoTo32;
      ModShift(HashOf(p) * 31 + u, q * 31);
    }
  }

  lemma ModShift(a: int, k: int)
    ensures (a + k * TwoTo32) % TwoTo32 == a % TwoTo32
  {
  }

  /** The intermediate value `hash * 31 + unit` never leaves the range in
      which JavaScript numbers are exact integers, so computing it on
      unbounded integers is faithful. */
  lemma StepIsExact(hash: int, unit: int)
    requires 0 <= hash < TwoTo32 && 0 <= unit < 0x1_0000
    ensures 0 <= hash * 31 + unit < TwoTo53
  {
  }

  /** `subjectColor(name)`; an absent name defaults to the empty string. */
  method SubjectColor(name: Option<string>) returns (r: Swatch)
    ensures r == Palette[HashOf(CodeUnits(name.GetOr(""))) % |Palette|]
    ensures r in Palette
  {
    var units := CodeUnits(name.GetOr(""));
    var hash := 0;
    var i := 0;
    while i < |units|
      invariant 0 <= i <= |units|
      invariant hash == HashOf(units[..i])
    {
      assert units[..i + 1][..i] == units[..i];
      StepIsExact(hash, units[i]);
      hash := (hash * 31 + units[i]) % TwoTo32;
      i := i + 1;
    }
    assert units[..i] == units;
    r := Palette[hash % |Palette|];
  }

  /** The colour is fixed by the polynomial hash of the name's code units. */
  lemma SubjectColorIsPolynomial(name: string)
    ensures Palette[HashOf(CodeUnits(name)) % |Palette|]
         == Palette[(Polynomial(CodeUnits(name)) % TwoTo32) % |Palette|]
  {
    HashIsPolynomialMod(CodeUnits(name));
  }

  /** The empty name, and a missing one, are blue. */
  lemma EmptyNameIsBlue()
    ensures Palette[HashOf(CodeUnits(None.GetOr(""))) % |Palette|].bg == "bg-blue-100"
  {
  }

  /** A single-character name below U+10000 picks the swatch at its
      character code modulo seven. */
  lemma SingleCharacterColor(c: char)
    requires (c as int) < 0x1_0000
    ensures HashOf(CodeUnits([c])) == c as int
  {
    assert [c][..0] == [];
  }
}
