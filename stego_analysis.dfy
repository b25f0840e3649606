/** The blind analysis of src/analysis/stego_analysis.c: run each retriever
    on the carrier in the fixed order LSB1, LSB4, LSBI and keep the first
    output that is a well-formed payload. The analysis table names
    lsb_1_retrieve, which the header stegobmp_lsb.h only declares; the LSB1
    output here is that of lsb1_retrieve, the LSB1 retriever the repository
    defines. The LSB4 and LSBI retrievers have no body in the repository,
    so their outputs are parameters. */
module StegoAnalysis {
  import opened Bits
  import opened StegoUtils
  import opened LsbSpec
  import Stego
  import StegoLsb

  /** StegoAnalysisMethod. */
  datatype Method = Unknown | Lsb1 | Lsb4 | LsbI

  const UNKNOWN_METHOD: string := "UNKNOWN"

  /** stego_analysis_method_to_string: each of the three methods has its own
      name, the one the embedder is invoked with; anything else is "UNKNOWN". */
  function MethodToString(m: Method): (r: string)
    ensures r == Stego.LSB1_METHOD <==> m == Lsb1
    ensures r == Stego.LSB4_METHOD <==> m == Lsb4
    ensures r == Stego.LSBI_METHOD <==> m == LsbI
    ensures r == UNKNOWN_METHOD <==> m == Unknown
  {
    match m
    case Lsb1 => Stego.LSB1_METHOD
    case Lsb4 => Stego.LSB4_METHOD
    case LsbI => Stego.LSBI_METHOD
    case Unknown => UNKNOWN_METHOD
  }

  /** validate_payload_buffer: the declared file size of a retrieved buffer
      that is at least 5 bytes long and whose extension passes the grammar
      check at 4 + declared size; None (the source's 0) otherwise, a NULL
      buffer included. */
  function ValidatePayloadBuffer(payload: Option<seq<bv8>>): (r: Option<nat>)
    ensures r.Some? <==> payload.Some? && |payload.value| >= INT_SIZE_BYTES + NUL_SIZE
                         && HasExtension(payload.value, INT_SIZE_BYTES + ReadU32BE(payload.value))
    ensures r.Some? ==> r.value == ReadU32BE(payload.value)
  {
    if payload.None? || |payload.value| < INT_SIZE_BYTES + NUL_SIZE then None
    else
      var buffer := payload.value;
      var declaredSize: nat := ReadU32BE(buffer);
      match ExtensionLength(buffer, declaredSize)
      case None => None
      case Some(extensionLength) =>
        RequiredSizeFits(buffer, declaredSize);
        var requiredSize := INT_SIZE_BYTES + declaredSize + extensionLength + NUL_SIZE;
        if requiredSize > |buffer| then None else Some(declaredSize)
  }

  /** The size check after a located extension never fails: the terminating
      NUL lies inside the buffer, so 4 + size + length + 1 fits. */
  lemma RequiredSizeFits(payload: seq<bv8>, fileSize: nat)
    requires ExtensionLength(payload, fileSize).Some?
    ensures INT_SIZE_BYTES + fileSize + ExtensionLength(payload, fileSize).value + NUL_SIZE <= |payload|
  {
  }

  /** The order the candidates are tried in. */
  const CANDIDATE_METHODS: seq<Method> := [Lsb1, Lsb4, LsbI]

  /** The index of the first candidate output that validates, from index `i` on. */
  function FirstValid(outputs: seq<Option<seq<bv8>>>, i: nat): (r: Option<nat>)
    requires i <= |outputs|
    ensures r.Some? ==> i <= r.value < |outputs| && ValidatePayloadBuffer(outputs[r.value]).Some?
                        && forall j :: i <= j < r.value ==> ValidatePayloadBuffer(outputs[j]).None?
    ensures r.None? ==> forall j :: i <= j < |outputs| ==> ValidatePayloadBuffer(outputs[j]).None?
    decreases |outputs| - i
  {
    if i == |outputs| then None
    else if ValidatePayloadBuffer(outputs[i]).Some? then Some(i)
    else FirstValid(outputs, i + 1)
  }

  /** StegoAnalysisResult, updated in place by init, free and run. */
  class AnalysisResult {
    var hasPayload: bool
    var detectedMethod: Method
    var declaredPayloadSize: nat
    var extractedPayloadSize: nat
    var payload: Option<seq<bv8>>

    /** The state stego_analysis_result_init leaves: nothing found. */
    predicate IsEmpty()
      reads this
    {
      !hasPayload && detectedMethod == Unknown && declaredPayloadSize == 0 && extractedPayloadSize == 0 && payload.None?
    }

    /** The state a successful run leaves for `method` and its output. */
    predicate Holds(m: Method, declared: nat, output: seq<bv8>)
      reads this
    {
      hasPayload && detectedMethod == m && declaredPayloadSize == declared
      && extractedPayloadSize == |output| && payload == Some(output)
    }

    constructor ()
      ensures IsEmpty()
    {
      hasPayload := false;
      detectedMethod := Unknown;
      declaredPayloadSize := 0;
      extractedPayloadSize := 0;
      payload := None;
    }
  }

  /** stego_analysis_result_init: nothing to do for NULL; otherwise the
      empty state. */
  method ResultInit(result: AnalysisResult?)
    modifies result
    ensures result != null ==> result.IsEmpty()
  {
    if result == null {
      return;
    }
    result.hasPayload := false;
    result.detectedMethod := Unknown;
    result.declaredPayloadSize := 0;
    result.extractedPayloadSize := 0;
    result.payload := None;
  }

  /** stego_analysis_result_free: releases the payload and re-initialises,
      so the state afterwards does not depend on the state before; freeing
      twice is freeing once. */
  method ResultFree(result: AnalysisResult?)
    modifies result
    ensures result != null ==> result.IsEmpty()
  {
    if result == null {
      return;
    }
    ResultInit(result);
  }

  /** The three candidate outputs for a carrier, in the order they are tried:
      lsb1_retrieve's and the two given ones. */
  function CandidateOutputs(data: seq<bv8>, lsb4Output: Option<seq<bv8>>, lsbIOutput: Option<seq<bv8>>)
    : (r: seq<Option<seq<bv8>>>)
    ensures |r| == |CANDIDATE_METHODS|
  {
    [Lsb1Extract(data), lsb4Output, lsbIOutput]
  }

  /** stego_analysis_run. `bmp` is the carrier (None for NULL); the LSB4 and
      LSBI retrievers' outputs on it are parameters. 1 for a NULL argument,
      leaving `result` as it was; otherwise the result is first emptied, and
      the first candidate in the order LSB1, LSB4, LSBI whose output
      validates fills it and gives 0; when none does, the result stays empty
      and the run gives 1. */
  method Run(bmp: Option<seq<bv8>>, result: AnalysisResult?, lsb4Output: Option<seq<bv8>>,
             lsbIOutput: Option<seq<bv8>>) returns (status: int)
    modifies result
    ensures bmp.None? || result == null ==> status == 1
    ensures bmp.None? && result != null ==> unchanged(result)
    ensures bmp.Some? && result != null ==>
      var outputs := CandidateOutputs(bmp.value, lsb4Output, lsbIOutput);
      match FirstValid(outputs, 0)
      case None => status == 1 && result.IsEmpty()
      case Some(i) =>
        && status == 0
        && result.Holds(CANDIDATE_METHODS[i], ValidatePayloadBuffer(outputs[i]).value, outputs[i].value)
  {
    if bmp.None? || result == null {
      return 1;
    }

    ResultInit(result);

    var lsb1Output := StegoLsb.Lsb1Retrieve(bmp.value);
    var outputs := [lsb1Output, lsb4Output, lsbIOutput];
    assert outputs == CandidateOutputs(bmp.value, lsb4Output, lsbIOutput);

    status := TryCandidates(outputs, result);
  }

  /** The loop of stego_analysis_run over the candidate outputs, from an
      emptied result: the first output that validates fills the result and
      gives 0; when none does, the result stays empty and the loop gives 1. */
  method TryCandidates(outputs: seq<Option<seq<bv8>>>, result: AnalysisResult) returns (status: int)
    requires |outputs| == |CANDIDATE_METHODS| && result.IsEmpty()
    modifies result
    ensures match FirstValid(outputs, 0)
      case None => status == 1 && result.IsEmpty()
      case Some(i) =>
        && status == 0
        && result.Holds(CANDIDATE_METHODS[i], ValidatePayloadBuffer(outputs[i]).value, outputs[i].value)
  {
    var i := 0;
    while i < |CANDIDATE_METHODS|
      invariant 0 <= i <= |CANDIDATE_METHODS|
      invariant result.IsEmpty()
      invariant FirstValid(outputs, 0) == FirstValid(outputs, i)
    {
      var payloadBuffer := outputs[i];
      if payloadBuffer.None? {
        i := i + 1;
        continue;
      }

      var declaredSize := ValidatePayloadBuffer(payloadBuffer);
      if declaredSize.None? {
        i := i + 1;
        continue;
      }

      result.hasPayload := true;
      result.detectedMethod := CANDIDATE_METHODS[i];
      result.declaredPayloadSize := declaredSize.value;
      result.extractedPayloadSize := |payloadBuffer.value|;
      result.payload := payloadBuffer;
      return 0;
    }

    return 1;
  }

  /** The analysis accepts a frame exactly when its extension is well
      formed, and then reports the length of the file it carries. */
  lemma FrameValidates(file: seq<bv8>, ext: seq<bv8>)
    requires |file| <= U32_MAX && NulFree(ext)
    ensures ValidatePayloadBuffer(Some(Frame(file, ext))) == if WellFormedExtension(ext) then Some(|file|) else None
  {
    FrameExtension(file, ext);
  }

  /** A file hidden with LSB1 under a C-string name is what lsb1_retrieve
      gives back, so the analysis reports LSB1 and the file's length, and
      extraction writes the file under the output name plus the hidden
      extension, exactly when that extension is well formed; otherwise
      both reject the frame that hiding accepted. */
  lemma Lsb1HiddenIsFound(inputFileName: seq<bv8>, file: seq<bv8>, data: seq<bv8>,
                          lsb4Output: Option<seq<bv8>>, lsbIOutput: Option<seq<bv8>>, outputFileName: seq<bv8>)
    requires 0 < |file| && NulFree(inputFileName)
    requires Stego.HideFile(inputFileName, Some(file), Stego.LSB1_METHOD, data).status == 0
    ensures var ext := ExtensionOf(inputFileName).value;
            var outputs := CandidateOutputs(Stego.HideFile(inputFileName, Some(file), Stego.LSB1_METHOD, data).carrier,
                                            lsb4Output, lsbIOutput);
            && outputs[0] == Some(Frame(file, ext))
            && (WellFormedExtension(ext) <==> FirstValid(outputs, 0) == Some(0))
            && (WellFormedExtension(ext) ==> CANDIDATE_METHODS[0] == Lsb1 && ValidatePayloadBuffer(outputs[0]) == Some(|file|))
            && SaveExtractedFile(Frame(file, ext), outputFileName)
               == if WellFormedExtension(ext) then Some(SavedFile(outputFileName + ext, file)) else None
  {
    var ext := ExtensionOf(inputFileName).value;
    ExtensionNulFree(inputFileName);
    Stego.Lsb1HideThenRetrieve(inputFileName, file, data);
    FrameValidates(file, ext);
    FrameSaves(file, ext, outputFileName);
  }

  /** The file name "a.tar-gz". */
  const TAR_GZ_NAME: seq<bv8> := [0x61, 0x2E, 0x74, 0x61, 0x72, 0x2D, 0x67, 0x7A]

  /** Its extension is ".tar-gz", taken from its only '.'; the '-' in it is
      outside the readers' grammar. */
  lemma TarGzExtension()
    ensures NulFree(TAR_GZ_NAME) && ExtensionOf(TAR_GZ_NAME) == Some(TAR_GZ_NAME[1..])
    ensures |TAR_GZ_NAME[1..]| == 7 && !WellFormedExtension(TAR_GZ_NAME[1..])
  {
    assert TAR_GZ_NAME[1] == EXTENSION_DOT;
    assert !IsExtensionChar(TAR_GZ_NAME[1..][4]);
  }

  /** "a.tar-gz" is hidden with the extension ".tar-gz": the LSB1 hide of
      a one-byte file succeeds and lsb1_retrieve gives back its frame, yet
      neither the analysis nor extraction accepts that frame. */
  lemma HiddenButUnreadable(data: seq<bv8>, outputFileName: seq<bv8>)
    requires |data| >= LSB1_BYTES_PER_PAYLOAD * 13
    ensures Stego.HideFile(TAR_GZ_NAME, Some(ONE_BYTE_FILE), Stego.LSB1_METHOD, data).status == 0
    ensures Lsb1Extract(Stego.HideFile(TAR_GZ_NAME, Some(ONE_BYTE_FILE), Stego.LSB1_METHOD, data).carrier)
            == Some(Frame(ONE_BYTE_FILE, TAR_GZ_NAME[1..]))
    ensures ValidatePayloadBuffer(Some(Frame(ONE_BYTE_FILE, TAR_GZ_NAME[1..]))).None?
    ensures SaveExtractedFile(Frame(ONE_BYTE_FILE, TAR_GZ_NAME[1..]), outputFileName).None?
  {
    TarGzExtension();
    var frame := Frame(ONE_BYTE_FILE, TAR_GZ_NAME[1..]);
    assert |frame| == 13;
    assert !Stego.ExceedsCapacity(Stego.LSB1_METHOD, |data|, |frame|);
    Lsb1HiddenIsFound(TAR_GZ_NAME, ONE_BYTE_FILE, data, None, None, outputFileName);
  }

  /** A file holding the single byte 'A'. */
  const ONE_BYTE_FILE: seq<bv8> := [0x41]
}
