/** Loads from a converted database and from its XML sources agree. */
module ConversionLoads {
  import opened Base
  import opened CborEncode
  import opened Caps
  import opened Database
  import opened ViewLoads
  import opened Conversion
  import Loader
  import Requirements
  import S = Session

  /** Compiler correctness: a database the converter accepts loads every profile
      from its compiled form exactly as from its XML: the same success or failure,
      the same tree, the same capabilities and the same verdict on fallbacks. */
  lemma ConversionPreservesLoads(s: Sources, given: Option<string>, sha: Bytes -> Bytes, name: string, caps: CapsTable,
                                 tolerant: bool)
    requires Convert(s, given, sha).Some? && Readable(s)
    ensures EncodeSpec(Convert(s, given, sha).value).Some?
    ensures var cbor, xml := CborContext(EncodeSpec(Convert(s, given, sha).value).value, sha), XmlContext(s);
            && (cbor.Some? <==> xml.Some?)
            && (xml.Some? ==> S.Load(cbor.value, name, caps, tolerant) == S.Load(xml.value, name, caps, tolerant))
  {
    hide Convert, EncodeSpec, CborContext, XmlContext, Readable, ViewContext, MonitorRoots;
    ConvertedContext(s, given, sha);
    var xml := XmlContext(s);
    if xml.Some? { ViewLoad(xml.value, name, caps, tolerant); }
  }

  lemma ViewLoad(ctx: Context, name: string, caps: CapsTable, tolerant: bool)
    requires ctx.monitorFile.None? && MonitorRoots(ctx)
    ensures S.Load(ViewContext(ctx), name, caps, tolerant) == S.Load(ctx, name, caps, tolerant)
  {
    hide Requirements.Demanding, Loader.CreateDb, Loader.Arrange, Loader.Start, MonitorRoots;
    var v := ViewContext(ctx);
    assert v.options == ctx.options && v.monitorFile.None?;
    ViewDemanding(ctx, (name, true));
    ViewCreate(ctx, Loader.Start(ctx.options, caps), name, 0, S.ModeFor(ctx, name, tolerant));
  }
}
