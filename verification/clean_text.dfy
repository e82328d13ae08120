/**
  The `clean_text` helper of the report generator: Turkish letters are
  transliterated to ASCII by twelve successive `str.replace` passes, and the
  result is then forced into the ISO/IEC 8859-1 (Latin-1) repertoire by
  encoding with the `'replace'` error handler (one `?` per character that has
  no Latin-1 byte) and decoding again.

  Only the string branch is modelled; a non-string argument is returned as
  `str(text)` untouched by the source and is not part of this model.
 */
module CleanText {

  /** A Latin-1 byte. */
  type Byte = b: int | 0 <= b < 256

  /** Code point of the `?` that the `'replace'` error handler emits. */
  const QuestionMark: Byte := 63

  /** The replacement table, in the dictionary's insertion order. */
  const Replacements: seq<(char, char)> := [
    ('\U{011F}', 'g'), ('\U{011E}', 'G'),
    ('\U{015F}', 's'), ('\U{015E}', 'S'),
    ('\U{0131}', 'i'), ('\U{0130}', 'I'),
    ('\U{00FC}', 'u'), ('\U{00DC}', 'U'),
    ('\U{00F6}', 'o'), ('\U{00D6}', 'O'),
    ('\U{00E7}', 'c'), ('\U{00C7}', 'C')
  ]

  predicate IsLatin1(c: char) {
    c as int < 256
  }

  predicate AllLatin1(s: string) {
    forall i :: 0 <= i < |s| ==> IsLatin1(s[i])
  }

  // ---------------------------------------------------------------------
  // The reference definition: one character at a time
  // ---------------------------------------------------------------------

  /** The Turkish letter the table rewrites, written out letter by letter. */
  predicate IsTurkish(c: char) {
    c in {'\U{011F}', '\U{011E}', '\U{015F}', '\U{015E}', '\U{0131}', '\U{0130}',
          '\U{00FC}', '\U{00DC}', '\U{00F6}', '\U{00D6}', '\U{00E7}', '\U{00C7}'}
  }

  /** ASCII stand-in for each Turkish letter; every other character is kept. */
  function Transliterate(c: char): (r: char)
    ensures IsTurkish(c) ==> ('a' <= r <= 'z' || 'A' <= r <= 'Z') && (c, r) in Replacements
    ensures !IsTurkish(c) ==> r == c
  {
    match c
    case '\U{011F}' => 'g'
    case '\U{011E}' => 'G'
    case '\U{015F}' => 's'
    case '\U{015E}' => 'S'
    case '\U{0131}' => 'i'
    case '\U{0130}' => 'I'
    case '\U{00FC}' => 'u'
    case '\U{00DC}' => 'U'
    case '\U{00F6}' => 'o'
    case '\U{00D6}' => 'O'
    case '\U{00E7}' => 'c'
    case '\U{00C7}' => 'C'
    case _ => c
  }

  /** What `clean_text` does to one character. */
  function CleanChar(c: char): (r: char)
    ensures IsLatin1(r)
    ensures IsTurkish(c) ==> r == Transliterate(c) && r as int < 128
    ensures !IsTurkish(c) && IsLatin1(c) ==> r == c
    ensures !IsTurkish(c) && !IsLatin1(c) ==> r == '?'
  {
    var t := Transliterate(c);
    if IsLatin1(t) then t else '?'
  }

  // ---------------------------------------------------------------------
  // The code as written: replace passes, then a Latin-1 round trip
  // ---------------------------------------------------------------------

  /** `s.replace(a, b)` for single-character `a` and `b`. */
  function ReplaceChar(s: string, a: char, b: char): (r: string)
    ensures |r| == |s|
    ensures forall i :: 0 <= i < |s| && s[i] != a ==> r[i] == s[i]
    ensures a != b ==> forall i :: 0 <= i < |r| ==> r[i] != a
    ensures forall i :: 0 <= i < |s| && s[i] == a ==> r[i] == b
  {
    seq(|s|, i requires 0 <= i < |s| => if s[i] == a then b else s[i])
  }

  /** The `for tr, eng in replacements.items()` loop. */
  function ApplyReplacements(s: string, reps: seq<(char, char)>): (r: string)
    ensures |r| == |s|
    ensures forall i :: 0 <= i < |s| ==> r[i] == s[i] || exists k :: 0 <= k < |reps| && r[i] == reps[k].1
    decreases |reps|
  {
    if reps == [] then s
    else ApplyReplacements(ReplaceChar(s, reps[0].0, reps[0].1), reps[1..])
  }

  /** `text.encode('latin-1', 'replace')`. */
  function EncodeLatin1(s: string): (bs: seq<Byte>)
    ensures |bs| == |s|
    ensures forall i :: 0 <= i < |s| && IsLatin1(s[i]) ==> bs[i] == s[i] as int
    ensures forall i :: 0 <= i < |s| && !IsLatin1(s[i]) ==> bs[i] == QuestionMark
  {
    seq(|s|, i requires 0 <= i < |s| =>
      if IsLatin1(s[i]) then s[i] as int as Byte else QuestionMark)
  }

  /** `bytes.decode('latin-1')`: every byte is the code point of one character. */
  function DecodeLatin1(bs: seq<Byte>): (s: string)
    ensures |s| == |bs|
    ensures AllLatin1(s)
    ensures forall i :: 0 <= i < |bs| ==> s[i] as int == bs[i]
  {
    seq(|bs|, i requires 0 <= i < |bs| => bs[i] as char)
  }

  /** `clean_text(text)` for a string argument. */
  function Clean(text: string): (r: string)
    ensures |r| == |text|
    ensures AllLatin1(r)
  {
    DecodeLatin1(EncodeLatin1(ApplyReplacements(text, Replacements)))
  }

  // ---------------------------------------------------------------------
  // Properties
  // ---------------------------------------------------------------------

  /** The Latin-1 decoder inverts the encoder exactly on Latin-1 text. */
  lemma Latin1RoundTrip(s: string)
    ensures DecodeLatin1(EncodeLatin1(s)) == s <==> AllLatin1(s)
  {
    var r := DecodeLatin1(EncodeLatin1(s));
    if AllLatin1(s) {
      assert forall i :: 0 <= i < |s| ==> r[i] == s[i];
    } else {
      var i :| 0 <= i < |s| && !IsLatin1(s[i]);
      assert r[i] != s[i];
    }
  }

  /** One character pushed through the replacement passes. */
  function TranslateChar(c: char, reps: seq<(char, char)>): char
    decreases |reps|
  {
    if reps == [] then c
    else TranslateChar(if c == reps[0].0 then reps[0].1 else c, reps[1..])
  }

  /** The replacement passes act on each position independently. */
  lemma {:induction false} ApplyReplacementsPointwise(s: string, reps: seq<(char, char)>)
    ensures |ApplyReplacements(s, reps)| == |s|
    ensures forall i :: 0 <= i < |s| ==> ApplyReplacements(s, reps)[i] == TranslateChar(s[i], reps)
    decreases |reps|
  {
    if reps != [] {
      var s' := ReplaceChar(s, reps[0].0, reps[0].1);
      ApplyReplacementsPointwise(s', reps[1..]);
    }
  }

  /** No replacement target is rewritten again by a later pass. */
  predicate Unchained(reps: seq<(char, char)>) {
    forall k, j :: 0 <= k < j < |reps| ==> reps[k].1 != reps[j].0
  }

  lemma ReplacementsUnchained()
    ensures Unchained(Replacements)
  {
    forall k, j | 0 <= k < j < |Replacements|
      ensures Replacements[k].1 != Replacements[j].0
    {
      assert Replacements[k].1 as int < 128 <= Replacements[j].0 as int by {
        assert k in {0, 1, 2, 3, 4, 5, 6, 7, 8, 9, 10};
      }
    }
  }

  /** A target that no later pass rewrites comes out unchanged. */
  lemma {:induction false} TranslateUntouched(c: char, reps: seq<(char, char)>)
    requires forall j :: 0 <= j < |reps| ==> reps[j].0 != c
    ensures TranslateChar(c, reps) == c
    decreases |reps|
  {
    if reps != [] {
      TranslateUntouched(c, reps[1..]);
    }
  }

  /** The twelve passes amount to the single-character transliteration. */
  lemma TranslateIsTransliterate(c: char)
    ensures TranslateChar(c, Replacements) == Transliterate(c)
  {
    ReplacementsUnchained();
    var R := Replacements;
    if IsTurkish(c) {
      var k :=
        match c
        case '\U{011F}' => 0 case '\U{011E}' => 1
        case '\U{015F}' => 2 case '\U{015E}' => 3
        case '\U{0131}' => 4 case '\U{0130}' => 5
        case '\U{00FC}' => 6 case '\U{00DC}' => 7
        case '\U{00F6}' => 8 case '\U{00D6}' => 9
        case '\U{00E7}' => 10 case _ => 11;
      TranslateFirstHit(c, R, k);
    } else {
      TranslateUntouched(c, R);
    }
  }

  /** If pass `k` is the first to match `c`, the passes yield its target. */
  lemma {:induction false} TranslateFirstHit(c: char, reps: seq<(char, char)>, k: nat)
    requires Unchained(reps)
    requires k < |reps| && reps[k].0 == c
    requires forall j :: 0 <= j < k ==> reps[j].0 != c
    ensures TranslateChar(c, reps) == reps[k].1
    decreases |reps|
  {
    if k == 0 {
      TranslateUntouched(reps[0].1, reps[1..]);
    } else {
      TranslateFirstHit(c, reps[1..], k - 1);
    }
  }

  /** `clean_text` as written agrees with the per-character reference. */
  lemma CleanIsPointwise(text: string)
    ensures |Clean(text)| == |text|
    ensures forall i :: 0 <= i < |text| ==> Clean(text)[i] == CleanChar(text[i])
  {
    ApplyReplacementsPointwise(text, Replacements);
    forall i | 0 <= i < |text|
      ensures Clean(text)[i] == CleanChar(text[i])
    {
      TranslateIsTransliterate(text[i]);
    }
  }

  /** `clean_text` output: same length, only Latin-1 characters, and each
      character replaced exactly as the table and the error handler say. */
  lemma CleanSpec(text: string)
    ensures |Clean(text)| == |text|
    ensures AllLatin1(Clean(text))
    ensures forall i :: 0 <= i < |text| && IsTurkish(text[i]) ==>
      Clean(text)[i] == Transliterate(text[i])
    ensures forall i :: 0 <= i < |text| && !IsTurkish(text[i]) && IsLatin1(text[i]) ==>
      Clean(text)[i] == text[i]
    ensures forall i :: 0 <= i < |text| && !IsTurkish(text[i]) && !IsLatin1(text[i]) ==>
      Clean(text)[i] == '?'
  {
    CleanIsPointwise(text);
  }

  /** Cleaning twice is the same as cleaning once. */
  lemma CleanIdempotent(text: string)
    ensures Clean(Clean(text)) == Clean(text)
  {
    var once := Clean(text);
    CleanIsPointwise(text);
    CleanIsPointwise(once);
    assert forall i :: 0 <= i < |once| ==> Clean(once)[i] == once[i];
  }

  /** Text already free of Turkish letters and in Latin-1 is left alone. */
  lemma CleanFixesPlainLatin1(text: string)
    requires AllLatin1(text)
    requires forall i :: 0 <= i < |text| ==> !IsTurkish(text[i])
    ensures Clean(text) == text
  {
    CleanIsPointwise(text);
  }

  /** `clean_text` gives `expected` when each character cleans to its counterpart. */
  lemma CleanByChars(text: string, expected: string)
    requires |expected| == |text|
    requires forall i :: 0 <= i < |text| ==> CleanChar(text[i]) == expected[i]
    ensures Clean(text) == expected
  {
    CleanIsPointwise(text);
  }

  /** A place name with a dotted capital I and a euro sign. */
  lemma CleanExample()
    ensures Clean("\U{0130}zmir \U{015E}ube \U{20AC}5") == "Izmir Sube ?5"
  {
    CleanByChars("\U{0130}zmir \U{015E}ube \U{20AC}5", "Izmir Sube ?5");
  }
}
