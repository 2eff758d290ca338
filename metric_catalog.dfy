/** `METRIC_GROUPS`, the fixed catalog of KPI metrics, and
    `findMetricLabel` over it. */
module MetricCatalog {
  import opened MetricDefs

  /** `METRIC_GROUPS`, in its declaration order (the order
      `Object.entries` and `Object.values` visit it). */
  const Catalog: seq<MetricGroup> := [
    MetricGroup("Financeiro", FinanceiroMetrics),
    MetricGroup("Esteira Scripts", ScriptsMetrics),
    MetricGroup("Esteira Estático", EstaticoMetrics),
    MetricGroup("Esteira Gravação Própria", GravacaoMetrics),
    MetricGroup("Tráfego", TrafegoMetrics),
    MetricGroup("Conteúdo", ConteudoMetrics)
  ]

  /** The metrics of the group "Financeiro". */
  const FinanceiroMetrics: seq<MetricDef> := [
    MetricDef("Financeiro_Faturamento_Total", "Faturamento Total", Currency),
    MetricDef("Financeiro_Lucro", "Lucro", Currency),
    MetricDef("Financeiro_Pedidos_Guru", "Pedidos Guru", Count),
    MetricDef("Financeiro_Pedidos_ML", "Pedidos ML", Count),
    MetricDef("Financeiro_Pedidos_Yampi", "Pedidos Yampi", Count),
    MetricDef("Financeiro_Gastos_Meta", "Gastos em Meta", Currency),
    MetricDef("Financeiro_Gastos_Google", "Gastos em Google", Currency),
    MetricDef("Financeiro_Gastos_Mktp", "Gastos em Mktp", Currency)
  ]

  /** The metrics of the group "Esteira Scripts". */
  const ScriptsMetrics: seq<MetricDef> := [
    MetricDef("Scripts_Scripts_Briefing_Feitos", "Scripts/Briefing Feitos", Count),
    MetricDef("Scripts_Scripts_Briefing_Escoados", "Scripts/Briefing Escoados", Count),
    MetricDef("Scripts_Materiais_Recebidos", "Materiais Recebidos", Count),
    MetricDef("Scripts_Materiais_Aguardando_Receber", "Materiais Aguardando Receber", Count),
    MetricDef("Scripts_Pecas_Editadas_Jeff", "Peças Editadas Jeff", Count),
    MetricDef("Scripts_Pecas_Editadas_Natalia", "Peças Editadas Natalia", Count)
  ]

  /** The metrics of the group "Esteira Estático". */
  const EstaticoMetrics: seq<MetricDef> := [
    MetricDef("Estatico_Estaticos_GG_Feitos", "Estáticos GG Feitos", Count),
    MetricDef("Estatico_Estaticos_Meta_Feitos", "Estáticos Meta Feitos", Count),
    MetricDef("Estatico_Assets_Infra", "Assets Infra", Count)
  ]

  /** The metrics of the group "Esteira Gravação Própria". */
  const GravacaoMetrics: seq<MetricDef> := [
    MetricDef("Gravacao_Materias_Gravados", "Materias Gravados", Count),
    MetricDef("Gravacao_Materias_Editados", "Materias Editados", Count)
  ]

  /** The metrics of the group "Tráfego". */
  const TrafegoMetrics: seq<MetricDef> := [
    MetricDef("Trafego_Ads_Upados_Meta", "Ads Upados Meta", Count),
    MetricDef("Trafego_Ads_Upados_Google", "Ads Upados Google", Count)
  ]

  /** The metrics of the group "Conteúdo". */
  const ConteudoMetrics: seq<MetricDef> := [
    MetricDef("Conteudo_Prospeccoes_Feitas", "Prospecções Feitas", Count)
  ]

  /** `findMetricLabel(key)` over `METRIC_GROUPS`. */
  method FindMetricLabel(key: string) returns (title: string)
    ensures title == LabelOf(Catalog, key)
  {
    title := FindLabelIn(Catalog, key);
  }

  /** A lookup in `METRIC_GROUPS` itself: "Financeiro_Lucro" is the second
      metric of the first group and its title is "Lucro". */
  lemma CatalogLookupExample()
    ensures LabelOf(Catalog, "Financeiro_Lucro") == "Lucro"
  {
    FlattenSplit(Catalog, 0);
    var defs := Flatten(Catalog);
    assert Catalog[..0] == [];
    assert defs[0] == Catalog[0].metrics[0];
    assert defs[1] == Catalog[0].metrics[1];
    assert |defs[0].key| != |"Financeiro_Lucro"|;
    FirstWithKeyAt(defs, "Financeiro_Lucro", 1);
  }

  /** The keys of `METRIC_GROUPS` are pairwise distinct, so every row built
      over it has exactly 22 metric fields. The source does not check this;
      the constant satisfies it: each key starts with its group's prefix, the
      six prefixes start with six different letters, and no group repeats a
      key. */
  lemma CatalogKeysDistinct()
    ensures KeysDistinct(Flatten(Catalog))
    ensures |Flatten(Catalog)| == 22
  {
    CatalogFlat();
    GroupsKeysDistinct();
  }

  /** The six metric lists, joined, repeat no key. */
  lemma GroupsKeysDistinct()
    ensures KeysDistinct(FinanceiroMetrics + ScriptsMetrics + EstaticoMetrics +
                         GravacaoMetrics + TrafegoMetrics + ConteudoMetrics)
  {
    FinanceiroDistinct();
    FinanceiroTagged();
    ScriptsDistinct();
    ScriptsTagged();
    EstaticoDistinct();
    EstaticoTagged();
    GravacaoDistinct();
    GravacaoTagged();
    TrafegoDistinct();
    TrafegoTagged();
    ConteudoDistinct();
    ConteudoTagged();
    PrefixLettersDistinct();
    KeysDistinctSix(FinanceiroMetrics, ScriptsMetrics, EstaticoMetrics,
                    GravacaoMetrics, TrafegoMetrics, ConteudoMetrics, "FSEGTC");
  }

  /** The first letters of the six group prefixes differ. */
  lemma PrefixLettersDistinct()
    ensures forall i, j :: 0 <= i < j < 6 ==> "FSEGTC"[i] != "FSEGTC"[j]
  {
  }

  /** The metrics of `METRIC_GROUPS`, group after group. */
  lemma CatalogFlat()
    ensures Flatten(Catalog) == FinanceiroMetrics + ScriptsMetrics + EstaticoMetrics +
                                GravacaoMetrics + TrafegoMetrics + ConteudoMetrics
  {
    FlattenSix(Catalog[0], Catalog[1], Catalog[2], Catalog[3], Catalog[4], Catalog[5]);
  }

  lemma FinanceiroDistinct()
    ensures KeysDistinct(FinanceiroMetrics)
  {
  }

  lemma FinanceiroTagged()
    ensures Tagged(FinanceiroMetrics, 'F')
  {
  }

  lemma ScriptsDistinct()
    ensures KeysDistinct(ScriptsMetrics)
  {
  }

  lemma ScriptsTagged()
    ensures Tagged(ScriptsMetrics, 'S')
  {
  }

  lemma EstaticoDistinct()
    ensures KeysDistinct(EstaticoMetrics)
  {
  }

  lemma EstaticoTagged()
    ensures Tagged(EstaticoMetrics, 'E')
  {
  }

  lemma GravacaoDistinct()
    ensures KeysDistinct(GravacaoMetrics)
  {
  }

  lemma GravacaoTagged()
    ensures Tagged(GravacaoMetrics, 'G')
  {
  }

  lemma TrafegoDistinct()
    ensures KeysDistinct(TrafegoMetrics)
  {
  }

  lemma TrafegoTagged()
    ensures Tagged(TrafegoMetrics, 'T')
  {
  }

  lemma ConteudoDistinct()
    ensures KeysDistinct(ConteudoMetrics)
  {
  }

  lemma ConteudoTagged()
    ensures Tagged(ConteudoMetrics, 'C')
  {
  }
}
