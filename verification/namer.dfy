/** Output-name synthesis (makeOutputFilename): either the source's own name
    with its extension replaced by ".avif", or the source's modification day
    followed by six random hex digits. The randomness is an input. */
module Namer {
  import opened Text
  import opened Paths
  import opened Records

  /** Where the random part comes from: three bytes from the system's
      cryptographic source, or, when reading them fails, the wall clock in
      nanoseconds since the epoch (a signed 64-bit value). */
  datatype Entropy =
    | RandomBytes(r0: byte, r1: byte, r2: byte)
    | ClockFallback(unixNano: int)

  /** The clock fallback keeps the low 28 bits (x & 0xfffffff). For a
      two's-complement value this is x modulo 2^28, which Dafny's % computes
      for negative x as well. */
  const FallbackModulus: nat := 0x1000_0000

  /** The random part of a timestamped name: six hex digits of the random
      bytes, or one to seven hex digits of the masked clock. */
  function RandomToken(e: Entropy): (tok: string)
    ensures 1 <= |tok| && AllLowerHex(tok)
    ensures e.RandomBytes? ==> |tok| == 6 && DecodeHex(tok) == [e.r0, e.r1, e.r2]
    ensures e.ClockFallback? ==> |tok| <= 7 && HexValue(tok) == e.unixNano % FallbackModulus
  {
    match e
    case RandomBytes(a, b, c) =>
      HexRoundTrip([a, b, c]);
      EncodeHex([a, b, c])
    case ClockFallback(t) =>
      var masked := t % FallbackModulus;
      assert Pow16(7) == FallbackModulus;
      FormatHexLength(masked, 7);
      FormatHex(masked)
  }

  function PrefixPart(prefix: string): string {
    if prefix != "" then prefix + "_" else ""
  }

  lemma PrefixPartNoSlash(prefix: string)
    requires NoSlash(prefix)
    ensures NoSlash(PrefixPart(prefix))
  {
    if prefix != "" {
      ConcatNoSlash(prefix, "_");
    }
  }

  /** keep-name mode: "prefix_stem.avif", or "stem.avif" without a prefix. */
  function KeepNameOutput(path: string, prefix: string): string {
    PrefixPart(prefix) + Stem(path) + ".avif"
  }

  /** timestamped mode: "prefix_date_token.avif", or "date_token.avif". */
  function TimestampedOutput(date: string, prefix: string, token: string): string {
    PrefixPart(prefix) + date + "_" + token + ".avif"
  }

  /** makeOutputFilename. The entropy is consulted only in timestamped mode. */
  function OutputName(fi: FileInfo, prefix: string, keepName: bool, e: Entropy): (name: string)
    ensures EndsWith(name, ".avif") && Ext(name) == ".avif"
  {
    var front := PrefixPart(prefix) + (if keepName then Stem(fi.path) else fi.modDate + "_" + RandomToken(e));
    AvifName(front);
    if keepName then KeepNameOutput(fi.path, prefix)
    else
      TimestampedShape(fi.modDate, prefix, RandomToken(e));
      TimestampedOutput(fi.modDate, prefix, RandomToken(e))
  }

  lemma TimestampedShape(date: string, prefix: string, token: string)
    ensures TimestampedOutput(date, prefix, token) == PrefixPart(prefix) + (date + "_" + token) + ".avif"
  {
  }

  /** Adding ".avif" to a name gives a name whose extension is ".avif"; it
      adds no separator. */
  lemma AvifName(front: string)
    ensures Ext(front + ".avif") == ".avif"
    ensures NoSlash(front) ==> NoSlash(front + ".avif")
  {
    assert NoDotNoSlash("avif");
    ExtOfSplit(front, "avif");
    assert front + "." + "avif" == front + ".avif";
    if NoSlash(front) {
      assert NoSlash(".avif");
      ConcatNoSlash(front, ".avif");
    }
  }

  /** Reading a keep-name output back as a path gives the prefix and the
      source's stem: the name is the source's stem with only ".avif" added. */
  lemma KeepNameRecoversStem(path: string, prefix: string)
    requires NoSlash(prefix) && Base(path) != "/"
    ensures Stem(KeepNameOutput(path, prefix)) == PrefixPart(prefix) + Stem(path)
  {
    var front := PrefixPart(prefix) + Stem(path);
    var name := KeepNameOutput(path, prefix);
    assert name == front + ".avif";
    PrefixPartNoSlash(prefix);
    ConcatNoSlash(PrefixPart(prefix), Stem(path));
    AvifName(front);
    BaseOfJoin("", name);
    assert Base(name) == name;
    assert name[..|name| - 5] == front;
  }

  /** The keep-name output depends only on the file's own name, not on the
      directory it was found in. */
  lemma KeepNameIgnoresDirectory(dir: string, file: string, prefix: string)
    requires file != [] && NoSlash(file)
    ensures KeepNameOutput(JoinPath(dir, file), prefix) == KeepNameOutput(file, prefix)
  {
    BaseOfJoin(dir, file);
    BaseOfJoin("", file);
  }

  /** Splits a timestamped name back into its date (8 characters) and token. */
  function ParseTimestamped(name: string, prefix: string): Option<(string, string)> {
    var p := PrefixPart(prefix);
    if !(p <= name) then None
    else
      var rest := name[|p|..];
      if |rest| < 8 + 1 + 5 || !EndsWith(rest, ".avif") then None
      else
        var core := rest[..|rest| - 5];
        if core[8] != '_' then None else Some((core[..8], core[9..]))
  }

  /** A timestamped name parses back into the file's date and a token that
      decodes to the three random bytes, or to the masked clock value. */
  lemma TimestampedRoundTrip(fi: FileInfo, prefix: string, e: Entropy)
    requires |fi.modDate| == 8
    ensures ParseTimestamped(OutputName(fi, prefix, false, e), prefix) == Some((fi.modDate, RandomToken(e)))
    ensures e.RandomBytes? ==> |OutputName(fi, prefix, false, e)| == |PrefixPart(prefix)| + 20
  {
    var p := PrefixPart(prefix);
    var tok := RandomToken(e);
    var name := OutputName(fi, prefix, false, e);
    var core := fi.modDate + "_" + tok;
    var rest := core + ".avif";
    assert name == p + rest;
    assert p <= name;
    assert name[|p|..] == rest;
    assert |rest| >= 14;
    assert rest[|rest| - 5..] == ".avif";
    assert rest[..|rest| - 5] == core;
    assert core[8] == '_';
    assert core[..8] == fi.modDate;
    assert core[9..] == tok;
  }
}
