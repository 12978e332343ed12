/**
 Which directory entries the script processes: names ending in `_datos.txt`
 whose text before the first `_` is a filtered symbol.
 */
module Selection {
  import opened Text
  import opened Frame
  import opened Registry

  const DataSuffix: string := "_datos.txt"

  /** `file_name.split('_')[0]`. */
  function SymbolOf(fileName: string): string {
    FirstField(fileName, '_')
  }

  /** A name ending in `_datos.txt` always holds an `_`, so its symbol is the
      text strictly before the first one, and that symbol is no longer than
      the name minus the suffix. */
  lemma DataFileSymbol(fileName: string)
    requires EndsWith(fileName, DataSuffix)
    ensures |SymbolOf(fileName)| <= |fileName| - |DataSuffix|
    ensures fileName[|SymbolOf(fileName)|] == '_'
  {
    var n := |fileName| - |DataSuffix|;
    assert fileName[n] == DataSuffix[0] == '_';
  }

  /** The test at the top of the loop: the name ends in `_datos.txt` and its
      symbol is in the list. A selected name's symbol ends at an `_` that
      comes before the suffix. */
  predicate Selected(fileName: string, symbols: seq<Cell>)
    ensures Selected(fileName, symbols) ==>
              && Present(SymbolOf(fileName)) in symbols
              && |SymbolOf(fileName)| <= |fileName| - |DataSuffix|
              && fileName[|SymbolOf(fileName)|] == '_'
  {
    if EndsWith(fileName, DataSuffix) then
      DataFileSymbol(fileName);
      Present(SymbolOf(fileName)) in symbols
    else
      false
  }

  /** A listed symbol holding an `_` never matches a file name: the text
      before the first `_` cannot contain one. */
  lemma UnderscoreSymbolNeverMatches(fileName: string, symbol: string)
    requires '_' in symbol
    ensures SymbolOf(fileName) != symbol
  {
  }

  /** `<SYMBOL>_datos.txt` is selected exactly when SYMBOL is a filtered
      symbol, provided SYMBOL has no `_` of its own. */
  lemma DataFileOfSymbol(symbol: string, symbols: seq<Cell>)
    requires '_' !in symbol
    ensures Selected(symbol + DataSuffix, symbols) <==> Present(symbol) in symbols
  {
    var f := symbol + DataSuffix;
    assert f == symbol + ['_'] + "datos.txt";
    FirstFieldOfJoin(symbol, '_', "datos.txt");
    assert f[|f| - |DataSuffix|..] == DataSuffix;
  }

  /** Selection against the filtered registry, spelled out: the name ends in
      `_datos.txt` and some "bitget" line of the registry carries its symbol. */
  lemma SelectedByRegistry(fileName: string, assets: seq<Asset>)
    ensures Selected(fileName, BitgetSymbols(assets)) <==>
              && EndsWith(fileName, DataSuffix)
              && exists i :: 0 <= i < |assets| && OnBitget(assets[i]) && assets[i].symbol == Present(SymbolOf(fileName))
  {
  }
}
