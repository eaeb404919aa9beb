/** cJSON from end to end: what printing, parsing and minifying do to each other's buffers and items. */
module JsonWhole {
  import opened Options
  import opened JsonSyntax
  import opened JsonGaps
  import N = JsonNodes
  import P = JsonPrinter
  import JsonMinify
  import JsonMinifyInPlace
  import JsonParser

  // Printing a tree of items in either format and parsing the text builds it again of fresh items, with
  // its lone missing strings taken out, and leaves everything else alone; when another string or a
  // member's name is missing, the text is refused and the store stays as it was. So the tree comes
  // back exactly when it is complete.
  method PrintAndParse(cjson: JsonParser.CJson, item: N.Ptr, fmt: bool, ghost sh: N.Shape)
    returns (again: N.Ptr, ghost sh': N.Shape)
    requires N.NULL !in cjson.store && N.Holds(cjson.store, sh) && sh.p == item && Printable(N.Value(sh))
    modifies cjson`store, cjson`ep
    ensures Complete(N.Value(sh)) <==> again != N.NULL && N.Value(sh') == N.Value(sh)
    ensures if Complete(Closed(N.Value(sh))) then
              && again != N.NULL && again == sh'.p && N.Value(sh') == Closed(N.Value(sh))
              && JsonParser.NewTree(old(cjson.store), cjson.store, sh')
            else again == N.NULL && cjson.store == old(cjson.store)
  {
    hide ParseDocument, PrintValue, Printable, Complete, Closed;
    var out := P.PrintValue(cjson.store, item, 0, fmt, sh);
    var text := P.TextOf(out, PrintValue(N.Value(sh), 0, fmt));
    PrintedReads(N.Value(sh), fmt, true);
    RoundTripExactly(N.Value(sh), fmt, true);
    var end;
    again, end, sh' := cjson.ParseWithOpts(text, true);
  }

  // Minifying the buffer that cJSON_Print filled leaves in it what cJSON_PrintUnformatted prints.
  method PrintAndMinify(st: N.Store, item: N.Ptr, fmt: bool, ghost sh: N.Shape) returns (out: array<char>)
    requires N.Holds(st, sh) && sh.p == item && Printable(N.Value(sh))
    ensures var compact := PrintValue(N.Value(sh), 0, false);
            fresh(out) && |compact| < out.Length && out[..|compact|] == compact && out[|compact|] == '\0'
  {
    hide PrintValue, Minify, Printable;
    out := P.PrintValue(st, item, 0, fmt, sh);
    JsonMinify.MinifyPrinted(N.Value(sh), fmt);
    ghost var text := PrintValue(N.Value(sh), 0, fmt);
    JsonMinifyInPlace.MinifyInPlace(out, |text|);
  }
}
