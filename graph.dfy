/**
 * The two decisions a Graph makes before plotting: the y range that covers
 * every plotted series, and where each series' line colour comes from.
 */
module Graphs {
  import opened Ledger

  /** find_y_range's starting y_min, larger than any price is expected to be. */
  const YMinStart: real := 10000000000000.0

  /** The automatic colours are chosen by the stock's index modulo 67. */
  const PaletteSize: nat := 67

  /**
   * find_y_range: the least of the series' minimums and the greatest of their
   * maximums, starting from YMinStart and 0. The result bounds every price,
   * and each end is a price of some series unless it kept its start value.
   */
  method FindYRange(stocks: seq<Stock>) returns (yMin: real, yMax: real)
    requires forall i :: 0 <= i < |stocks| ==> |stocks[i].data| > 0
    ensures forall i, j :: 0 <= i < |stocks| && 0 <= j < |stocks[i].data| ==>
              yMin <= stocks[i].data[j] <= yMax
    ensures yMin <= YMinStart && yMax >= 0.0
    ensures yMin == YMinStart || exists i :: 0 <= i < |stocks| && yMin in stocks[i].data
    ensures yMax == 0.0 || exists i :: 0 <= i < |stocks| && yMax in stocks[i].data
    ensures |stocks| == 0 ==> yMin == YMinStart && yMax == 0.0
  {
    yMin, yMax := YMinStart, 0.0;
    for k := 0 to |stocks|
      invariant forall i, j :: 0 <= i < k && 0 <= j < |stocks[i].data| ==> yMin <= stocks[i].data[j] <= yMax
      invariant yMin <= YMinStart && yMax >= 0.0
      invariant yMin == YMinStart || exists i :: 0 <= i < k && yMin in stocks[i].data
      invariant yMax == 0.0 || exists i :: 0 <= i < k && yMax in stocks[i].data
    {
      var data := stocks[k].data;
      MinIsMinimum(data);
      MaxIsMaximum(data);
      if yMin > Min(data) {
        yMin := Min(data);
      }
      if yMax < Max(data) {
        yMax := Max(data);
      }
    }
  }

  /** Where a line colour comes from: the automatic palette, a hex string, or a CSS3 colour name. */
  datatype ColorSource = AutoColor(index: nat) | HexColor(hex: string) | NamedColor(name: string)

  /** The colour rule of gen_graph for the i-th stock. */
  function ColorFor(i: nat, color: Option<string>): (c: ColorSource)
    ensures c.AutoColor? <==> color.None?
    ensures c.AutoColor? ==> c.index < PaletteSize
    ensures c.HexColor? <==> color.Some? && |color.value| > 0 && color.value[0] == '#'
    ensures color.Some? ==> c == HexColor(color.value) || c == NamedColor(color.value)
  {
    match color
    case None => AutoColor(i % PaletteSize)
    case Some(text) =>
      if |text| > 0 && text[0] == '#' then HexColor(text) else NamedColor(text)
  }

  /** The automatic colours repeat every 67 stocks. */
  lemma AutoColorsCycle(i: nat)
    ensures ColorFor(i + PaletteSize, None) == ColorFor(i, None)
  {
  }

  /** Two stocks fewer than 67 places apart never get the same automatic colour. */
  lemma AutoColorsDiffer(i: nat, j: nat)
    requires i < j < i + PaletteSize
    ensures ColorFor(i, None) != ColorFor(j, None)
  {
    var d := j / PaletteSize - i / PaletteSize;
    assert j - i == d * PaletteSize + (j % PaletteSize - i % PaletteSize);
  }

  /**
   * The loop of gen_graph, one colour per plotted stock in order; stocks
   * without a colour that are fewer than 67 places apart get distinct palette
   * entries.
   */
  method ChooseColors(colors: seq<Option<string>>) returns (sources: seq<ColorSource>)
    ensures |sources| == |colors|
    ensures forall i :: 0 <= i < |colors| ==> sources[i] == ColorFor(i, colors[i])
    ensures forall i, j :: 0 <= i < j < |colors| && j - i < PaletteSize && colors[i].None? && colors[j].None? ==>
              sources[i] != sources[j]
  {
    sources := [];
    for i := 0 to |colors|
      invariant |sources| == i
      invariant forall k :: 0 <= k < i ==> sources[k] == ColorFor(k, colors[k])
    {
      var source;
      match colors[i] {
        case None =>
          source := AutoColor(i % PaletteSize);
        case Some(text) =>
          source := if |text| > 0 && text[0] == '#' then HexColor(text) else NamedColor(text);
      }
      sources := sources + [source];
    }
    forall i, j | 0 <= i < j < |colors| && j - i < PaletteSize && colors[i].None? && colors[j].None?
      ensures sources[i] != sources[j]
    {
      AutoColorsDiffer(i, j);
    }
  }
}
