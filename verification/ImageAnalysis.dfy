/** The analyses on a code image: the graph theory with the 8086 decoder in place of an arbitrary one. */
module ImageAnalysis {
  import opened Words
  import opened Outcome
  import opened InstructionDecoder
  import opened ControlFlow
  import opened BinaryLoader
  import CfgBuilder
  import ControlFlowIr
  import DecoderWindow
  import FunctionRecovery
  import LoopRecovery

  function Decoder(code: seq<u8>): nat -> Decoded {
    (p: nat) => DecodeAt(code, p)
  }

  /** The 8086 decoder meets the contract the graph theory asks for. */
  lemma DecoderIsWindow(code: seq<u8>)
    ensures Window(Decoder(code), |code|)
  {
    forall p: nat | Decoder(code)(p).Ok?
      ensures var i := Decoder(code)(p).value; i.offset == p && 1 <= i.size && p + i.size <= |code|
    {
      DecoderWindow.DecodedBounds(code, p);
    }
  }

  datatype Analysis = Analysis(blocks: seq<CfgBuilder.BasicBlock>, program: seq<ControlFlowIr.IrBlock>,
                               loops: seq<LoopRecovery.RecoveredLoop>, functions: seq<FunctionRecovery.RecoveredFunction>)

  /**
   * Everything recovered from an image. The stages after the graph builder cannot fail: the only errors
   * are the builder's.
   */
  method Analyse(code: seq<u8>, entry: nat) returns (r: Result<Analysis, CfgError>)
    ensures Window(Decoder(code), |code|)
    ensures r.Ok? <==> entry < |code| && forall p :: Reachable(Decoder(code), |code|, entry, p) ==> Fine(Decoder(code), |code|, p)
    ensures r == Err(CfgError.EntryOutside) <==> entry >= |code|
    ensures r.Ok? ==> CfgBuilder.Built(Decoder(code), |code|, entry, r.value.blocks)
    ensures r.Ok? ==> ControlFlowIr.Lowering(r.value.blocks, r.value.program)
    ensures r.Ok? ==> LoopRecovery.LoopsOf(Decoder(code), r.value.blocks) == Ok(r.value.loops)
    ensures r.Ok? ==> FunctionRecovery.Recovered(Decoder(code), entry, r.value.blocks, r.value.functions)
  {
    hide CfgBuilder.Built;
    DecoderIsWindow(code);
    var decode := Decoder(code);
    var graph := CfgBuilder.Build(decode, |code|, entry);
    if graph.Err? {
      return Err(graph.error);
    }
    var blocks := graph.value;
    ControlFlowIr.BuiltIsLowerable(decode, |code|, entry, blocks);
    var program := ControlFlowIr.Lower(blocks);
    LoopRecovery.LoopsExact(decode, |code|, entry, blocks, blocks);
    var loops := LoopRecovery.Recover(decode, |code|, blocks);
    forall b | b in blocks
      ensures FunctionRecovery.Acceptable(decode, |code|, b)
    {
      FunctionRecovery.BuiltAcceptable(decode, |code|, entry, blocks, b);
    }
    var functions := FunctionRecovery.Recover(decode, |code|, blocks, entry);
    return Ok(Analysis(blocks, program.value, loops.value, functions.value));
  }

  datatype FileError = NotLoaded(loading: LoadError) | NotAnalysed(analysis: CfgError)

  /**
   * Loading a file and analysing its image from its entry point. That the entry lies outside is found here,
   * for exactly the MZ files whose header words say so.
   */
  method AnalyseFile(file: seq<u8>) returns (r: Result<Analysis, FileError>)
    ensures Loaded(file).Err? ==> r == Err(NotLoaded(Loaded(file).error))
    ensures Loaded(file).Ok? && Loaded(file).value.format == Mz ==> Readable(file)
    ensures r == Err(NotAnalysed(CfgError.EntryOutside)) <==>
        Loaded(file).Ok? && Loaded(file).value.format == Mz && !EntryInside(HeaderOf(file))
    ensures r.Ok? <==>
        && Loaded(file).Ok? && (Loaded(file).value.format == Mz ==> EntryInside(HeaderOf(file)))
        && var image := Loaded(file).value;
           forall p :: Reachable(Decoder(image.bytes), |image.bytes|, EntryOffset(image), p) ==> Fine(Decoder(image.bytes), |image.bytes|, p)
    ensures r.Ok? ==> Window(Decoder(Loaded(file).value.bytes), |Loaded(file).value.bytes|)
    ensures r.Ok? ==>
        var image := Loaded(file).value;
        CfgBuilder.Built(Decoder(image.bytes), |image.bytes|, EntryOffset(image), r.value.blocks)
        && ControlFlowIr.Lowering(r.value.blocks, r.value.program)
        && LoopRecovery.LoopsOf(Decoder(image.bytes), r.value.blocks) == Ok(r.value.loops)
        && FunctionRecovery.Recovered(Decoder(image.bytes), EntryOffset(image), r.value.blocks, r.value.functions)
  {
    hide CfgBuilder.Built, Loaded, Readable, EntryInside, HeaderOf, EntryOffset;
    var loaded := LoadBytes(file);
    if loaded.Err? {
      return Err(NotLoaded(loaded.error));
    }
    EntryInsideIff(file);
    var image := loaded.value;
    var analysed := Analyse(image.bytes, EntryOffset(image));
    if analysed.Err? {
      return Err(NotAnalysed(analysed.error));
    }
    return Ok(analysed.value);
  }
}
