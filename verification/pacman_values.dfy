/** Values of arch-linux/pacman_graph.py that need no graph: the size-unit table,
    `parse_size`, `PacmanPackage` and its `strip_version_requirements`. */
module PacmanValues {
  import opened Wrappers
  import opened PyExceptions
  import opened PyStr
  import opened Decimal

  /** `_units`: binary multipliers of the size units pacman prints. */
  const Units: map<string, nat> := map[
    "B" := 1,
    "KiB" := 1024,
    "MiB" := 1024 * 1024,
    "GiB" := 1024 * 1024 * 1024,
    "TiB" := 1024 * 1024 * 1024 * 1024
  ]

  function Pow10(k: nat): (p: nat)
    ensures p >= 1
  {
    if k == 0 then 1 else 10 * Pow10(k - 1)
  }

  /** The value of a plain decimal numeral `digits` or `digits.digits` (at least one
      digit in all), as `float()` reads it, but exact; anything else is refused. */
  function DecimalValue(s: string): (v: Option<real>)
    ensures v.Some? ==> v.value >= 0.0
    ensures s != [] && AllDigits(s) ==> v == Some(DigitsValue(s) as real)
  {
    match IndexOf(s, '.')
    case None =>
      if s != [] && AllDigits(s) then Some(DigitsValue(s) as real) else None
    case Some(i) =>
      var whole, fraction := s[..i], s[i + 1..];
      if AllDigits(whole) && AllDigits(fraction) && |whole| + |fraction| > 0 then
        Some(DigitsValue(whole) as real + DigitsValue(fraction) as real / Pow10(|fraction|) as real)
      else None
  }

  /** `parse_size`: "<number> <unit>" to a whole number of bytes, truncating.
      It fails exactly when the text is not two words (ValueError from the unpacking),
      when the number does not parse (ValueError from float), or when the unit is not
      in the table (KeyError), in that order of precedence. */
  function ParseSize(size: string): (r: Result<nat, Exception>)
    ensures var fields := Words(size);
            && (r.Ok? <==> |fields| == 2 && DecimalValue(fields[0]).Some? && fields[1] in Units)
            && (r.Ok? ==> BytesOf(DecimalValue(fields[0]).value, Units[fields[1]]) == r.value)
            && (r.Err? && |fields| == 2 && DecimalValue(fields[0]).Some? ==>
                  r.error == KeyError(fields[1]))
            && (r.Err? && (|fields| != 2 || DecimalValue(fields[0]).None?) ==> r.error.ValueError?)
  {
    var fields := Words(size);
    if |fields| != 2 then Err(ValueError("wrong number of values to unpack"))
    else match DecimalValue(fields[0])
      case None => Err(ValueError("could not convert string to float"))
      case Some(num) =>
        if fields[1] !in Units then Err(KeyError(fields[1]))
        else Ok(BytesOf(num, Units[fields[1]]))
  }

  /** `int(num * multiplier)` for a non-negative number: the whole bytes, truncated. */
  function BytesOf(num: real, multiplier: nat): (bytes: nat)
    requires num >= 0.0
    ensures bytes as real <= num * multiplier as real < bytes as real + 1.0
  {
    var exact := num * multiplier as real;
    assert exact >= 0.0;
    exact.Floor
  }

  /** `PacmanPackage.strip_version_requirements`: cut a dependency name at its
      version constraint. The characters are tried in the order `>`, `<`, `=`:
      the cut is at the first `>` if there is one, else at the first `<`, else at
      the first `=`; a name with none of them is returned whole. */
  function StripVersionRequirements(name: string): (r: string)
    ensures r <= name
    ensures '>' in name ==> |r| < |name| && name[|r|] == '>' && '>' !in r
    ensures '>' !in name && '<' in name ==> |r| < |name| && name[|r|] == '<' && '<' !in r
    ensures '>' !in name && '<' !in name && '=' in name ==>
              |r| < |name| && name[|r|] == '=' && '=' !in r
    ensures '>' !in name && '<' !in name && '=' !in name ==> r == name
  {
    match IndexOf(name, '>')
    case Some(i) => name[..i]
    case None =>
      match IndexOf(name, '<')
      case Some(i) => name[..i]
      case None =>
        match IndexOf(name, '=')
        case Some(i) => name[..i]
        case None => name
  }

  /** `PacmanPackage`: a package's dependency names, optional-dependency names and
      installed size in bytes (None until an "Installed Size" line is seen). */
  datatype Package = Package(
    name: string,
    dependencies: set<string>,
    optionalDependencies: set<string>,
    size: Option<nat>)
  {
    /** `size or 0`: a missing size counts as nothing. */
    function SizeOr0(): nat {
      if size.Some? then size.value else 0
    }
  }

  function NewPackage(name: string): (p: Package)
    ensures p.name == name && p.dependencies == {} && p.optionalDependencies == {}
    ensures p.size.None?
  {
    Package(name, {}, {}, None)
  }

  lemma ParseSizeOfFields(size: string, num: real, unit: string)
    requires |Words(size)| == 2 && DecimalValue(Words(size)[0]) == Some(num)
    requires Words(size)[1] == unit && unit in Units
    ensures ParseSize(size) == Ok(BytesOf(num, Units[unit]))
  {
  }

  /** An example step for ParseSizeOneMiB: one MiB of the unit table is 2^20 bytes. */
  lemma MiBBytes()
    ensures BytesOf(1.0, Units["MiB"]) == 1048576
  {
    assert Units["MiB"] == 1048576;
  }

  /** An example step for ParseSizeHalfMiB: 512 KiB of the unit table is 2^19 bytes. */
  lemma KiBBytes()
    ensures BytesOf(512.0, Units["KiB"]) == 524288
  {
    assert Units["KiB"] == 1024;
  }

  lemma WordsOfOneMiB()
    ensures Words("1.00 MiB") == ["1.00", "MiB"]
  {
    assert "1.00 MiB" == "1.00" + " " + "MiB";
    WordsOfTwo("1.00", "MiB");
  }

  lemma DecimalOfOne()
    ensures DecimalValue("1.00") == Some(1.0)
  {
    assert IndexOf("1.00", '.') == Some(1) && "1.00"[..1] == "1" && "1.00"[2..] == "00";
    assert "00"[..1] == "0" && "0"[..0] == "";
  }

  /** "1.00 MiB", a size as pacman prints it, is 2^20 bytes. */
  lemma ParseSizeOneMiB()
    ensures ParseSize("1.00 MiB") == Ok(1048576)
  {
    WordsOfOneMiB();
    DecimalOfOne();
    ParseSizeOfFields("1.00 MiB", 1.0, "MiB");
    MiBBytes();
  }

  lemma WordsOfHalfMiB()
    ensures Words("512.00 KiB") == ["512.00", "KiB"]
  {
    assert "512.00 KiB" == "512.00" + " " + "KiB";
    WordsOfTwo("512.00", "KiB");
  }

  /** A numeral whose fraction digits are all zero has the value of its whole part. */
  lemma DecimalOfZeroFraction(s: string, i: nat, whole: nat)
    requires IndexOf(s, '.') == Some(i)
    requires s[..i] != [] && AllDigits(s[..i]) && DigitsValue(s[..i]) == whole
    requires AllDigits(s[i + 1..]) && DigitsValue(s[i + 1..]) == 0
    ensures DecimalValue(s) == Some(whole as real)
  {
  }

  lemma DigitsOf512()
    ensures DigitsValue("512") == 512 && DigitsValue("00") == 0
  {
    assert "512"[..2] == "51" && "51"[..1] == "5" && "5"[..0] == "";
    assert "00"[..1] == "0" && "0"[..0] == "";
  }

  lemma DecimalOf512()
    ensures DecimalValue("512.00") == Some(512.0)
  {
    assert "512.00"[..3] == "512" && "512.00"[4..] == "00";
    IndexOfFirst("512.00", '.', 3);
    DigitsOf512();
    DecimalOfZeroFraction("512.00", 3, 512);
  }

  /** "512.00 KiB", a size as pacman prints it, is 2^19 bytes. */
  lemma ParseSizeHalfMiB()
    ensures ParseSize("512.00 KiB") == Ok(524288)
  {
    WordsOfHalfMiB();
    DecimalOf512();
    ParseSizeOfFields("512.00 KiB", 512.0, "KiB");
    KiBBytes();
  }
}
