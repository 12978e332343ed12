/**
 The asset registry: colon-separated `symbol:source:name` lines, already
 parsed into fields. A line too short to carry a field leaves it missing.
 */
module Registry {
  import opened Frame

  /** The source tag the script keeps, compared exactly (no trimming, no case
      folding). */
  const Bitget: string := "bitget"

  datatype Asset = Asset(symbol: Cell, source: Cell, name: Cell)

  predicate OnBitget(a: Asset)
    ensures a.source == Missing ==> !OnBitget(a)
    ensures OnBitget(a) ==> a.source != Present("Bitget") && a.source != Present(" bitget")
  {
    a.source == Present(Bitget)
  }

  /** `activos[activos['source'] == 'bitget']['symbol'].tolist()`: the symbol
      of every registry line whose source is exactly "bitget", in registry
      order, duplicates kept. */
  function BitgetSymbols(assets: seq<Asset>): (symbols: seq<Cell>)
    ensures |symbols| <= |assets|
    ensures forall x :: x in symbols <==>
              exists i :: 0 <= i < |assets| && OnBitget(assets[i]) && assets[i].symbol == x
  {
    if assets == [] then []
    else
      var init := assets[..|assets| - 1];
      var last := assets[|assets| - 1];
      assert forall i :: 0 <= i < |init| ==> init[i] == assets[i];
      BitgetSymbols(init) + (if OnBitget(last) then [last.symbol] else [])
  }

  /** The registry positions `BitgetSymbols` draws from: increasing, each a
      "bitget" line, and every "bitget" line among them. */
  function BitgetRows(assets: seq<Asset>): (rows: seq<nat>)
    ensures forall k :: 0 <= k < |rows| ==> rows[k] < |assets| && OnBitget(assets[rows[k]])
    ensures forall i :: 0 <= i < |assets| && OnBitget(assets[i]) ==> i in rows
    ensures forall k, l :: 0 <= k < l < |rows| ==> rows[k] < rows[l]
  {
    if assets == [] then []
    else
      var n := |assets| - 1;
      var init := assets[..n];
      assert forall i :: 0 <= i < n ==> init[i] == assets[i];
      BitgetRows(init) + (if OnBitget(assets[n]) then [n] else [])
  }

  /** The k-th filtered symbol is the symbol of the k-th "bitget" line, so
      the filter keeps registry order. */
  lemma {:induction false} BitgetSymbolsInOrder(assets: seq<Asset>)
    ensures |BitgetSymbols(assets)| == |BitgetRows(assets)|
    ensures forall k :: 0 <= k < |BitgetRows(assets)| ==>
              BitgetSymbols(assets)[k] == assets[BitgetRows(assets)[k]].symbol
  {
    if assets != [] {
      var n := |assets| - 1;
      var init := assets[..n];
      BitgetSymbolsInOrder(init);
      var rows := BitgetRows(init);
      forall k | 0 <= k < |rows|
        ensures init[rows[k]] == assets[rows[k]]
      {
      }
    }
  }
}
