/** Normalisation of object ids, which makes them fit for the key layout. */
module Identity {
  import opened Bytes
  import opened StorageKey

  datatype Normalized = Ok(id: Bytes) | Empty | Length(len: nat, max: nat) | InvalidChars

  function Lower(b: byte): (r: byte) {
    if 'A' as int <= b <= 'Z' as int then b + 32 else b
  }

  function ToAsciiLowercase(s: Bytes): (r: Bytes)
    ensures |r| == |s| && forall i :: 0 <= i < |s| ==> r[i] == Lower(s[i])
  {
    if s == [] then [] else [Lower(s[0])] + ToAsciiLowercase(s[1..])
  }

  /** The character class a-z, 0-9, dot, underscore, colon and hyphen. */
  predicate IsIdChar(b: byte) {
    || 'a' as int <= b <= 'z' as int
    || '0' as int <= b <= '9' as int
    || b == '.' as int || b == '_' as int || b == ':' as int || b == '-' as int
  }

  predicate AllIdChars(s: Bytes) {
    forall i :: 0 <= i < |s| ==> IsIdChar(s[i])
  }

  function NormalizeObjectId(raw: Bytes, max: nat): (r: Normalized) {
    if raw == [] then Empty
    else
      var lc := ToAsciiLowercase(raw);
      if |lc| > max then Length(|lc|, max)
      else if !AllIdChars(lc) then InvalidChars
      else Ok(lc)
  }

  const ID_CHARS: string := LETTERS + "0123456789._:-"

  const UPPER: string := "ABCDEFGHIJKLMNOPQRSTUVWXYZ"

  /** The letter's lower case form, or the character itself. */
  ghost predicate IsLowerOf(l: byte, b: byte) {
    if b as char in UPPER then l == b + 32 && l as char in ID_CHARS else l == b
  }

  const LETTERS: string := "abcdefghijklmnopqrstuvwxyz"

  lemma IsLetter(b: byte)
    ensures b as char in LETTERS <==> 'a' as int <= b <= 'z' as int
  {
    forall i | 0 <= i < |LETTERS| ensures LETTERS[i] as int == 'a' as int + i {}
    if 'a' as int <= b <= 'z' as int {
      assert LETTERS[b - 'a' as int] == b as char;
    }
  }

  lemma IsDigitOrSign(b: byte)
    ensures b as char in "0123456789._:-"
       <==> '0' as int <= b <= '9' as int || b as char == '.' || b as char == '_' || b as char == ':' || b as char == '-'
  {
    var s := "0123456789._:-";
    forall i | 0 <= i < 10 ensures s[i] as int == '0' as int + i {}
    assert s[10] == '.' && s[11] == '_' && s[12] == ':' && s[13] == '-';
    if '0' as int <= b <= '9' as int {
      assert s[b - '0' as int] == b as char;
    }
  }

  lemma LowerIs(b: byte)
    ensures IsLowerOf(Lower(b), b)
    ensures IsIdChar(b) <==> b as char in ID_CHARS
  {
    IsUpper(b);
    IsLetter(b);
    IsLetter(Lower(b));
    IsDigitOrSign(b);
    hide LETTERS, UPPER;
  }

  /** What comes out: every character in its place, letters in lower case; and which error
      where nothing does. */
  lemma NormalizedIs(raw: Bytes, max: nat)
    ensures var r := NormalizeObjectId(raw, max);
            && (r.Ok? ==> |r.id| == |raw| && forall i | 0 <= i < |raw| ::
                            IsLowerOf(r.id[i], raw[i]) && r.id[i] as char in ID_CHARS)
            && (r == Empty <==> raw == [])
            && (r.Length? <==> raw != [] && |raw| > max)
            && (r.Length? ==> r == Length(|raw|, max))
            && (r == InvalidChars <==> 0 < |raw| <= max && exists i | 0 <= i < |raw| ::
                                         raw[i] as char !in ID_CHARS && raw[i] as char !in UPPER)
  {
    var r := NormalizeObjectId(raw, max);
    forall i | 0 <= i < |raw|
      ensures IsLowerOf(Lower(raw[i]), raw[i])
      ensures IsIdChar(Lower(raw[i])) <==> Lower(raw[i]) as char in ID_CHARS
      ensures IsIdChar(Lower(raw[i])) <==> raw[i] as char in ID_CHARS || raw[i] as char in UPPER
    {
      LowerIs(raw[i]);
      LowerIs(Lower(raw[i]));
    }
    hide IsIdChar, ID_CHARS, UPPER, IsLowerOf, Lower;
  }

  /** Two ids are the same object exactly when they are equal up to the case of letters. */
  lemma SameIdIff(a: Bytes, b: Bytes, max: nat)
    requires NormalizeObjectId(a, max).Ok? && NormalizeObjectId(b, max).Ok?
    ensures NormalizeObjectId(a, max) == NormalizeObjectId(b, max)
       <==> |a| == |b| && forall i | 0 <= i < |a| :: SameLetter(a[i], b[i])
  {
    var x, y := NormalizeObjectId(a, max).id, NormalizeObjectId(b, max).id;
    forall i | 0 <= i < |a| && i < |b| ensures x[i] == y[i] <==> SameLetter(a[i], b[i]) {
      LowersAgree(a[i], b[i]);
    }
    hide Lower, SameLetter;
    if |a| == |b| && (forall i | 0 <= i < |a| :: SameLetter(a[i], b[i])) {
      assert x == y;
    }
  }

  /** Equal, or one the capital of the other. */
  ghost predicate SameLetter(a: byte, b: byte) {
    a == b || (a as char in UPPER && b == a + 32) || (b as char in UPPER && a == b + 32)
  }

  lemma LowersAgree(a: byte, b: byte)
    ensures Lower(a) == Lower(b) <==> SameLetter(a, b)
  {
    IsUpper(a);
    IsUpper(b);
    hide UPPER;
  }

  lemma IsUpper(b: byte)
    ensures b as char in UPPER <==> 'A' as int <= b <= 'Z' as int
  {
    forall i | 0 <= i < |UPPER| ensures UPPER[i] as int == 'A' as int + i {}
    if 'A' as int <= b <= 'Z' as int {
      assert UPPER[b - 'A' as int] == b as char;
    }
  }

  /** Exactly the non-empty, short enough strings over the class, in either case
      of letters, are accepted; the result is an id of the key layout, and
      normalising it again changes nothing. */
  lemma NormalizedIsId(raw: Bytes, max: nat)
    requires max < MAX_LEN
    ensures NormalizeObjectId(raw, max).Ok? <==>
            0 < |raw| <= max && forall i :: 0 <= i < |raw| ==> IsIdChar(Lower(raw[i]))
    ensures var r := NormalizeObjectId(raw, max);
            r.Ok? ==> IsId(r.id) && NormalizeObjectId(r.id, max) == r
  {
    hide ValidUtf8;
    var r := NormalizeObjectId(raw, max);
    if r.Ok? {
      AsciiIsUtf8(r.id);
      assert ToAsciiLowercase(r.id) == r.id;
    }
  }
}
