/** How Python's argparse tells the value of an option from another option (up to Python 3.13), for the two
    parsers of mkbootimg.  The formatter of unpack_bootimg passes option and value as two arguments, so
    a text that looks like an option is not taken as a value. */
module Argparse {
  import opened Decimals

  /** The letters of the short options and the long options of a parser. */
  datatype Parser = Parser(short: set<char>, long: set<string>)

  /** The parser of parse_cmdline. */
  const MAIN: Parser := Parser({'h', 'o'}, {
    "--help", "--kernel", "--ramdisk", "--second", "--dtb", "--recovery_dtbo", "--recovery_acpio", "--cmdline",
    "--vendor_cmdline", "--base", "--kernel_offset", "--ramdisk_offset", "--second_offset", "--dtb_offset",
    "--os_version", "--os_patch_level", "--tags_offset", "--board", "--pagesize", "--id", "--header_version",
    "--output", "--vendor_boot", "--vendor_ramdisk", "--vendor_bootconfig", "--gki_signing_algorithm",
    "--gki_signing_key", "--gki_signing_signature_args", "--gki_signing_avbtool_path"
  })

  /** The parser of parse_vendor_ramdisk_args. */
  const GROUP: Parser := Parser({}, {
    "--ramdisk_type", "--ramdisk_name", "--vendor_ramdisk_fragment",
    "--board_id0", "--board_id1", "--board_id2", "--board_id3", "--board_id4", "--board_id5",
    "--board_id6", "--board_id7", "--board_id8", "--board_id9", "--board_id10", "--board_id11",
    "--board_id12", "--board_id13", "--board_id14", "--board_id15"
  })

  /** A leading dash with something behind it. */
  predicate Dashed(s: string) { |s| >= 2 && s[0] == '-' }

  function BeforeEquals(s: string): string {
    if s == "" || s[0] == '=' then "" else [s[0]] + BeforeEquals(s[1..])
  }

  /** A prefix of a long option, a short option with what follows it, or the separator "--". */
  predicate Recognised(parser: Parser, s: string)
    requires Dashed(s)
  {
    if s[1] == '-' then exists o :: o in parser.long && BeforeEquals(s) <= o else s[1] in parser.short
  }

  /** A dash, then digits, or perhaps digits, a point and digits; a newline may end it. */
  predicate NegativeNumber(s: string)
    requires Dashed(s)
  {
    var t := if s[|s| - 1] == '\n' then s[1..|s| - 1] else s[1..];
    || (t != "" && Digits(t))
    || exists k :: 0 <= k < |t| - 1 && t[k] == '.' && Digits(t[..k]) && Digits(t[k + 1..])
  }

  /** An argument standing alone is the value of the option before it. */
  predicate IsValue(parser: Parser, s: string) {
    Dashed(s) ==> !Recognised(parser, s) && (NegativeNumber(s) || ' ' in s)
  }

  /** A fragment's name has to pass the main parser unrecognised before the group parser sees it. */
  predicate IsName(s: string) {
    IsValue(GROUP, s) && (Dashed(s) ==> !Recognised(MAIN, s))
  }

  /** "-v" alone is refused; with a second word it is taken, but "-o" with a second word is not. */
  lemma ShortExamples()
    ensures !IsValue(MAIN, "-v") && !IsName("-v")
    ensures IsValue(MAIN, "-v quiet") && !IsValue(MAIN, "-o quiet")
    ensures IsValue(MAIN, "-5") && IsValue(MAIN, "-")
  {
    hide BeforeEquals;
    assert "-v quiet"[2] == ' ';
    assert "-v"[1..] == "v" && "-5"[1..] == "5";
  }

  lemma LongExamples()
    ensures !IsValue(MAIN, "--") && !IsValue(MAIN, "--id")
  {
    hide NegativeNumber;
    assert "--id" in MAIN.long;
    assert BeforeEquals("--") == "--" <= "--id" && BeforeEquals("--id") == "--id";
  }
}
