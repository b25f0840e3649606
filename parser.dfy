/** The command-line validator of src/parser/parser.c. `argv` is a sequence
    of strings with the program name at index 0, so argc is |argv|; a
    pointer field of the arguments struct is None while NULL. */
module Parser {
  import opened Bits
  import Stego

  /** Fewer tokens than this cannot hold an action and three flag pairs. */
  const MIN_ARGC: nat := 8

  const EMBED_FLAG: string := "-embed"
  const EXTRACT_FLAG: string := "-extract"
  const INPUT_FLAG: string := "-in"
  const BMP_FLAG: string := "-p"
  const OUTPUT_FLAG: string := "-out"
  const STEG_FLAG: string := "-steg"
  const ENCRYPTION_METHOD_FLAG: string := "-a"
  const ENCRYPTION_MODE_FLAG: string := "-m"
  const PASSWORD_FLAG: string := "-pass"

  /** The flags that take the token after them as their value. */
  const VALUE_FLAGS: seq<string> :=
    [INPUT_FLAG, BMP_FLAG, OUTPUT_FLAG, STEG_FLAG, ENCRYPTION_METHOD_FLAG, ENCRYPTION_MODE_FLAG, PASSWORD_FLAG]

  /** The contents of a ProgramArguments struct. */
  datatype Arguments = Arguments(
    embed: bool,
    extract: bool,
    inputFilename: Option<string>,
    bmpFilename: Option<string>,
    outputBmpFilename: Option<string>,
    steganographyMethod: Option<string>,
    encryptionMethod: Option<string>,
    encryptionMode: Option<string>,
    password: Option<string>)

  /** The field a value flag sets. */
  function Field(args: Arguments, flag: string): Option<string>
    requires flag in VALUE_FLAGS
  {
    if flag == INPUT_FLAG then args.inputFilename
    else if flag == BMP_FLAG then args.bmpFilename
    else if flag == OUTPUT_FLAG then args.outputBmpFilename
    else if flag == STEG_FLAG then args.steganographyMethod
    else if flag == ENCRYPTION_METHOD_FLAG then args.encryptionMethod
    else if flag == ENCRYPTION_MODE_FLAG then args.encryptionMode
    else args.password
  }

  /** The struct after a value flag stores `value`: that field, and no other, holds it. */
  function Assign(args: Arguments, flag: string, value: string): (r: Arguments)
    requires flag in VALUE_FLAGS
    ensures Field(r, flag) == Some(value)
    ensures forall other :: other in VALUE_FLAGS && other != flag ==> Field(r, other) == Field(args, other)
    ensures r.embed == args.embed && r.extract == args.extract
  {
    if flag == INPUT_FLAG then args.(inputFilename := Some(value))
    else if flag == BMP_FLAG then args.(bmpFilename := Some(value))
    else if flag == OUTPUT_FLAG then args.(outputBmpFilename := Some(value))
    else if flag == STEG_FLAG then args.(steganographyMethod := Some(value))
    else if flag == ENCRYPTION_METHOD_FLAG then args.(encryptionMethod := Some(value))
    else if flag == ENCRYPTION_MODE_FLAG then args.(encryptionMode := Some(value))
    else args.(password := Some(value))
  }

  /** Where the token loop ends: the struct as it stands, and whether it
      stopped at a value flag with no token after it. */
  datatype ScanResult = ScanResult(args: Arguments, missingArgument: bool)

  /** The token loop from index `i` on: -embed and -extract set their flag,
      a value flag stores the next token whatever it is and skips it, any
      other token is ignored. */
  function Scan(argv: seq<string>, i: nat, args: Arguments): ScanResult
    decreases |argv| - i
  {
    if i >= |argv| then ScanResult(args, false)
    else if argv[i] == EMBED_FLAG then Scan(argv, i + 1, args.(embed := true))
    else if argv[i] == EXTRACT_FLAG then Scan(argv, i + 1, args.(extract := true))
    else if argv[i] in VALUE_FLAGS then
      if i + 1 < |argv| then Scan(argv, i + 2, Assign(args, argv[i], argv[i + 1]))
      else ScanResult(args, true)
    else Scan(argv, i + 1, args)
  }

  /** A -steg value that is accepted: exactly one of the three method names. */
  predicate SupportedMethod(name: string) {
    name == Stego.LSB1_METHOD || name == Stego.LSB4_METHOD || name == Stego.LSBI_METHOD
  }

  /** The checks after the loop: -p is required, a given -steg must name a
      supported method, and the action's own arguments must be present,
      embedding being checked first when both actions are set. */
  function Validate(args: Arguments): (r: int)
    ensures r == 0 || r == 1
  {
    if args.bmpFilename.None? then 1
    else if args.steganographyMethod.Some? && !SupportedMethod(args.steganographyMethod.value) then 1
    else if args.embed then
      if args.inputFilename.None? || args.outputBmpFilename.None? || args.steganographyMethod.None? then 1 else 0
    else if args.extract then
      if args.outputBmpFilename.None? || args.steganographyMethod.None? then 1 else 0
    else 1
  }

  /** What parse_arguments returns for `argv` and a struct holding `init`. */
  function ParseOutcome(argv: seq<string>, init: Arguments): int {
    if |argv| < MIN_ARGC then 1
    else
      var scan := Scan(argv, 1, init);
      if scan.missingArgument then 1 else Validate(scan.args)
  }

  /** A successful validation leaves a bitmap, an output file and a
      supported method, plus the input file when embedding. */
  lemma ValidateAccepts(args: Arguments)
    requires Validate(args) == 0
    ensures args.bmpFilename.Some? && args.outputBmpFilename.Some?
    ensures args.steganographyMethod.Some? && SupportedMethod(args.steganographyMethod.value)
    ensures args.embed || args.extract
    ensures args.embed ==> args.inputFilename.Some?
  {
  }

  /** Every struct with -p, a supported -steg and -out passes for extraction
      alone, and for embedding exactly when -in is present too: embedding
      is judged first when both actions are set. */
  lemma ValidateActions(args: Arguments)
    requires args.bmpFilename.Some? && args.outputBmpFilename.Some?
    requires args.steganographyMethod.Some? && SupportedMethod(args.steganographyMethod.value)
    ensures args.embed ==> (Validate(args) == 0 <==> args.inputFilename.Some?)
    ensures !args.embed ==> (Validate(args) == 0 <==> args.extract)
  {
  }

  /** A value flag whose token never occurs from index `i` on keeps its field. */
  lemma {:induction false} ScanKeeps(argv: seq<string>, i: nat, args: Arguments, flag: string)
    requires flag in VALUE_FLAGS && forall j :: i <= j < |argv| ==> argv[j] != flag
    ensures Field(Scan(argv, i, args).args, flag) == Field(args, flag)
    decreases |argv| - i
  {
    if i < |argv| {
      if argv[i] == EMBED_FLAG {
        ScanKeeps(argv, i + 1, args.(embed := true), flag);
      } else if argv[i] == EXTRACT_FLAG {
        ScanKeeps(argv, i + 1, args.(extract := true), flag);
      } else if argv[i] in VALUE_FLAGS {
        if i + 1 < |argv| {
          ScanKeeps(argv, i + 2, Assign(args, argv[i], argv[i + 1]), flag);
        }
      } else {
        ScanKeeps(argv, i + 1, args, flag);
      }
    }
  }

  /** The last occurrence of a value flag wins: a flag read at index `j`
      whose token does not occur again keeps the token after it. */
  lemma LastValueWins(argv: seq<string>, j: nat, args: Arguments)
    requires j + 1 < |argv| && argv[j] in VALUE_FLAGS
    requires forall k :: j + 2 <= k < |argv| ==> argv[k] != argv[j]
    ensures Field(Scan(argv, j, args).args, argv[j]) == Some(argv[j + 1])
  {
    ScanKeeps(argv, j + 2, Assign(args, argv[j], argv[j + 1]), argv[j]);
  }

  /** The index the loop moves to after the token at `i`: past a value
      flag's argument, otherwise to the next token. */
  function NextToken(argv: seq<string>, i: nat): (r: nat)
    requires i < |argv|
    ensures i < r <= |argv|
  {
    if argv[i] in VALUE_FLAGS && i + 1 < |argv| then i + 2 else i + 1
  }

  /** The loop started at `i` reads the token at `j` as a flag, not as the
      argument of the flag before it. */
  predicate ReadsAsFlag(argv: seq<string>, i: nat, j: nat)
    decreases |argv| - i
  {
    i == j || (i < j < |argv| && ReadsAsFlag(argv, NextToken(argv, i), j))
  }

  /** The loop from `i` on ends with the value after the last occurrence of
      a value flag that it reads as a flag: from index 1, this is the
      value parse_arguments stores. */
  lemma {:induction false} LastFlagWins(argv: seq<string>, i: nat, j: nat, args: Arguments)
    requires ReadsAsFlag(argv, i, j) && j + 1 < |argv| && argv[j] in VALUE_FLAGS
    requires forall k :: j + 2 <= k < |argv| ==> argv[k] != argv[j]
    ensures Field(Scan(argv, i, args).args, argv[j]) == Some(argv[j + 1])
    decreases |argv| - i
  {
    if i == j {
      LastValueWins(argv, j, args);
    } else if argv[i] == EMBED_FLAG {
      LastFlagWins(argv, i + 1, j, args.(embed := true));
    } else if argv[i] == EXTRACT_FLAG {
      LastFlagWins(argv, i + 1, j, args.(extract := true));
    } else if argv[i] in VALUE_FLAGS {
      LastFlagWins(argv, i + 2, j, Assign(args, argv[i], argv[i + 1]));
    } else {
      LastFlagWins(argv, i + 1, j, args);
    }
  }

  /** A flag token right after a value flag is that flag's argument: in
      "prog -p -in x" the loop never reads "-in" as a flag. */
  lemma ArgumentIsNotAFlag()
    ensures !ReadsAsFlag(["prog", "-p", "-in", "x"], 1, 2)
  {
    var argv := ["prog", "-p", "-in", "x"];
    assert argv[1] in VALUE_FLAGS;
    assert NextToken(argv, 1) == 3;
  }

  /** A value flag in the last position of the loop has no argument: the loop stops with 1. */
  lemma FlagAtEndMissing(argv: seq<string>, args: Arguments)
    requires 1 <= |argv| - 1 && argv[|argv| - 1] in VALUE_FLAGS
    ensures Scan(argv, |argv| - 1, args).missingArgument
  {
  }

  /** The token after a value flag is taken as its value even when it is a
      flag itself, so a following "-embed" does not select embedding. */
  lemma FlagValueIsConsumed(args: Arguments)
    requires !args.embed
    ensures var argv := ["stegobmp", "-p", "-embed"];
            Scan(argv, 1, args) == ScanResult(args.(bmpFilename := Some("-embed")), false)
  {
    var argv := ["stegobmp", "-p", "-embed"];
    assert argv[1] in VALUE_FLAGS;
  }

  /** The ProgramArguments struct, filled in place by parse_arguments. */
  class ProgramArguments {
    var embed: bool
    var extract: bool
    var inputFilename: Option<string>
    var bmpFilename: Option<string>
    var outputBmpFilename: Option<string>
    var steganographyMethod: Option<string>
    var encryptionMethod: Option<string>
    var encryptionMode: Option<string>
    var password: Option<string>

    /** The struct's contents as a value. */
    function Contents(): Arguments
      reads this
    {
      Arguments(embed, extract, inputFilename, bmpFilename, outputBmpFilename, steganographyMethod,
                encryptionMethod, encryptionMode, password)
    }

    /** A zero-initialised struct: no action, every pointer NULL. */
    constructor ()
      ensures Contents() == Arguments(false, false, None, None, None, None, None, None, None)
    {
      embed := false;
      extract := false;
      inputFilename := None;
      bmpFilename := None;
      outputBmpFilename := None;
      steganographyMethod := None;
      encryptionMethod := None;
      encryptionMode := None;
      password := None;
    }
  }

  /** parse_arguments: 1 with the struct untouched when there are fewer than
      8 tokens; otherwise the struct holds what the token loop leaves and
      the result is 1 for a flag without its value, else the verdict of
      the checks after the loop. */
  method ParseArguments(argv: seq<string>, arguments: ProgramArguments) returns (status: int)
    modifies arguments
    ensures status == ParseOutcome(argv, old(arguments.Contents()))
    ensures |argv| < MIN_ARGC ==> arguments.Contents() == old(arguments.Contents())
    ensures |argv| >= MIN_ARGC ==> arguments.Contents() == Scan(argv, 1, old(arguments.Contents())).args
  {
    if |argv| < MIN_ARGC {
      return 1;
    }

    var missingArgument := ScanTokens(argv, arguments);
    if missingArgument {
      return 1;
    }

    if arguments.bmpFilename.None? {
      return 1;
    }

    if arguments.steganographyMethod.Some? && arguments.steganographyMethod.value != Stego.LSB1_METHOD
       && arguments.steganographyMethod.value != Stego.LSB4_METHOD
       && arguments.steganographyMethod.value != Stego.LSBI_METHOD {
      return 1;
    }

    if arguments.embed {
      if arguments.inputFilename.None? || arguments.outputBmpFilename.None? || arguments.steganographyMethod.None? {
        return 1;
      }
    } else if arguments.extract {
      if arguments.outputBmpFilename.None? || arguments.steganographyMethod.None? {
        return 1;
      }
    } else {
      return 1;
    }

    return 0;
  }

  /** The token loop of parse_arguments, from index 1: the struct ends as
      Scan leaves it, and the loop reports a value flag without its value. */
  method ScanTokens(argv: seq<string>, arguments: ProgramArguments) returns (missingArgument: bool)
    modifies arguments
    ensures arguments.Contents() == Scan(argv, 1, old(arguments.Contents())).args
    ensures missingArgument == Scan(argv, 1, old(arguments.Contents())).missingArgument
  {
    ghost var init := arguments.Contents();
    var i := 1;
    while i < |argv|
      invariant 1 <= i <= |argv| + 1
      invariant Scan(argv, 1, init) == Scan(argv, i, arguments.Contents())
      decreases |argv| - i
    {
      var token := argv[i];
      if token == EMBED_FLAG {
        arguments.embed := true;
      } else if token == EXTRACT_FLAG {
        arguments.extract := true;
      } else if token in VALUE_FLAGS {
        if i + 1 < |argv| {
          StoreValue(arguments, token, argv[i + 1]);
          i := i + 1;
        } else {
          return true;
        }
      }
      i := i + 1;
    }
    return false;
  }

  /** The seven value-flag branches of the token loop: each stores the
      token after its flag in its own field. */
  method StoreValue(arguments: ProgramArguments, flag: string, value: string)
    requires flag in VALUE_FLAGS
    modifies arguments
    ensures arguments.Contents() == Assign(old(arguments.Contents()), flag, value)
  {
    if flag == INPUT_FLAG {
      arguments.inputFilename := Some(value);
    } else if flag == BMP_FLAG {
      arguments.bmpFilename := Some(value);
    } else if flag == OUTPUT_FLAG {
      arguments.outputBmpFilename := Some(value);
    } else if flag == STEG_FLAG {
      arguments.steganographyMethod := Some(value);
    } else if flag == ENCRYPTION_METHOD_FLAG {
      arguments.encryptionMethod := Some(value);
    } else if flag == ENCRYPTION_MODE_FLAG {
      arguments.encryptionMode := Some(value);
    } else {
      arguments.password := Some(value);
    }
  }
}
