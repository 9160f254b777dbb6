/** The Caesar shift with which the file copier encrypts letters. Java chars are
    UTF-16 code units, modelled as their codes. */
module CopyFileStdJava {
  import opened JavaInt

  /** A Java char: a 16-bit code unit */
  type CodeUnit = c: int | 0 <= c < 0x1_0000

  /** The number of letters in the Roman alphabet */
  const Letters: int := 26

  predicate IsUpper(c: CodeUnit) { 'A' as int <= c <= 'Z' as int }
  predicate IsLower(c: CodeUnit) { 'a' as int <= c <= 'z' as int }

  /** The code of the first letter of c's case, or 0 when c is not a letter */
  function Base(c: CodeUnit): int {
    if IsUpper(c) then 'A' as int else if IsLower(c) then 'a' as int else 0
  }

  /** The char cast of a Java int: its low 16 bits */
  function ToCodeUnit(x: int): CodeUnit {
    x % 0x1_0000
  }

  /** The encryption as the source writes it: a letter's offset from its base plus
      the key, brought back by 26 once when above 26 or below 0 */
  function EncryptAsWritten(ch: CodeUnit, key: int): (r: CodeUnit)
    requires IsInt32(key)
    ensures !IsUpper(ch) && !IsLower(ch) ==> r == ch
  {
    if !IsUpper(ch) && !IsLower(ch) then ch
    else
      var base := Base(ch);
      var offset := Add(ch - base, key);
      var offset := if offset > Letters then offset - Letters else if offset < 0 then offset + Letters else offset;
      ToCodeUnit(Add(base, offset))
  }

  /** With key 0 every char is unchanged. */
  lemma EncryptAsWrittenKeyZero(ch: CodeUnit)
    ensures EncryptAsWritten(ch, 0) == ch
  {
  }

  /** Within the alphabet the shift is plain addition, to a letter of the same
      case; above 26 it goes back by 26 and below 0 forward by 26. */
  lemma EncryptAsWrittenShifts(ch: CodeUnit, key: int)
    requires IsUpper(ch) || IsLower(ch)
    requires -Letters <= key <= Letters
    ensures 0 <= ch - Base(ch) + key < Letters ==>
      EncryptAsWritten(ch, key) == ch + key && IsUpper(ch + key) == IsUpper(ch) && IsLower(ch + key) == IsLower(ch)
    ensures ch - Base(ch) + key > Letters ==> EncryptAsWritten(ch, key) == ch + key - Letters
    ensures ch - Base(ch) + key < 0 ==> EncryptAsWritten(ch, key) == ch + key + Letters
    ensures ch - Base(ch) + key == Letters ==> EncryptAsWritten(ch, key) == Base(ch) + Letters
  {
  }

  /** An offset of exactly 26 is left as it is: 'z' shifted by 1 becomes '{' and
      'Z' shifted by 1 becomes '[', which are not letters. */
  lemma EncryptAsWrittenLeavesAlphabet()
    ensures EncryptAsWritten('z' as int, 1) == '{' as int
    ensures EncryptAsWritten('Z' as int, 1) == '[' as int
    ensures !IsUpper('{' as int) && !IsLower('{' as int) && !IsUpper('[' as int) && !IsLower('[' as int)
  {
  }

  /** The encryption with the wrap test corrected to offset >= 26 */
  function Encrypt(ch: CodeUnit, key: int): (r: CodeUnit)
    requires IsInt32(key)
    ensures !IsUpper(ch) && !IsLower(ch) ==> r == ch
  {
    if !IsUpper(ch) && !IsLower(ch) then ch
    else
      var base := Base(ch);
      var offset := Add(ch - base, key);
      var offset := if offset >= Letters then offset - Letters else if offset < 0 then offset + Letters else offset;
      ToCodeUnit(Add(base, offset))
  }

  /** For keys between -26 and 26 a letter becomes the letter of the same case key
      places further round the alphabet. */
  lemma EncryptRotates(ch: CodeUnit, key: int)
    requires IsUpper(ch) || IsLower(ch)
    requires -Letters <= key <= Letters
    ensures IsUpper(Encrypt(ch, key)) == IsUpper(ch) && IsLower(Encrypt(ch, key)) == IsLower(ch)
    ensures Encrypt(ch, key) - Base(ch) == (ch - Base(ch) + key) % Letters
  {
  }

  /** The two differ only where the offset is exactly 26. */
  lemma EncryptAgreesAsWritten(ch: CodeUnit, key: int)
    requires IsUpper(ch) || IsLower(ch)
    requires -Letters <= key <= Letters && ch - Base(ch) + key != Letters
    ensures Encrypt(ch, key) == EncryptAsWritten(ch, key)
  {
  }

  /** Shifting back by the key decrypts. */
  lemma EncryptRoundTrip(ch: CodeUnit, key: int)
    requires -Letters <= key <= Letters
    ensures Encrypt(Encrypt(ch, key), -key) == ch
  {
    if IsUpper(ch) || IsLower(ch) {
      EncryptRotates(ch, key);
      var e := Encrypt(ch, key);
      assert Base(e) == Base(ch);
      EncryptRotates(e, -key);
      ShiftBack(ch - Base(ch), key);
    }
  }

  /** Going key places round the alphabet and back again returns to the start. */
  lemma ShiftBack(o: int, key: int)
    requires 0 <= o < Letters && -Letters <= key <= Letters
    ensures ((o + key) % Letters - key) % Letters == o
  {
    var s := o + key;
    if s < 0 {
      assert s % Letters == s + Letters;
      assert (s + Letters - key) % Letters == (o + Letters) % Letters == o;
    } else if s < Letters {
      assert s % Letters == s;
    } else {
      assert s % Letters == s - Letters;
      assert (s - Letters - key) % Letters == (o - Letters) % Letters == o;
    }
  }
}
