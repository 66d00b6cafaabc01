/** The fixed skill catalog: each canonical skill with the alias phrases that
    count as evidence for it, in the order the table lists them. */
module SkillCatalog {

  type Entry = (string, seq<string>)

  /** `SKILL_ALIASES`, in declaration order: the six groups of the table. */
  const SkillAliases: seq<Entry> := CoreData + MlAi + GenAi + AppsWeb + CloudInfra + DataPlatforms

  // Core data & Python
  const CoreData: seq<Entry> := [
    ("python", ["python", "py"]),
    ("pandas", ["pandas"]),
    ("numpy", ["numpy", "np"]),
    ("sql", ["sql", "postgres", "postgresql", "mysql", "sqlite", "snowflake", "bigquery", "mssql", "sql server"]),
    ("excel", ["excel", "microsoft excel", "pivot table", "vlookup"]),
    ("git", ["git", "github", "gitlab"])
  ]

  // ML / AI
  const MlAi: seq<Entry> := [
    ("scikit-learn", ["scikit-learn", "sklearn"]),
    ("tensorflow", ["tensorflow", "tf"]),
    ("pytorch", ["pytorch", "torch"]),
    ("xgboost", ["xgboost"]),
    ("lightgbm", ["lightgbm", "lgbm"]),
    ("nlp", ["nlp", "natural language processing"]),
    ("computer vision", ["computer vision", "cv"])
  ]

  // GenAI / RAG
  const GenAi: seq<Entry> := [
    ("openai api", ["openai", "chatgpt api", "gpt-4", "gpt4", "gpt-3.5"]),
    ("hugging face", ["huggingface", "hugging face", "transformers"]),
    ("vector db", ["faiss", "pinecone", "weaviate", "milvus", "chromadb"])
  ]

  // Apps / Web
  const AppsWeb: seq<Entry> := [
    ("streamlit", ["streamlit"]),
    ("fastapi", ["fastapi"]),
    ("flask", ["flask"]),
    ("rest api", ["rest", "rest api", "http api"])
  ]

  // Cloud / Infra
  const CloudInfra: seq<Entry> := [
    ("aws", ["aws", "amazon web services", "s3", "lambda", "ec2", "athena", "redshift"]),
    ("gcp", ["gcp", "google cloud", "bigquery", "vertex ai"]),
    ("azure", ["azure", "azure ml"]),
    ("docker", ["docker"]),
    ("kubernetes", ["kubernetes", "k8s"])
  ]

  // Data platforms
  const DataPlatforms: seq<Entry> := [
    ("spark", ["spark", "pyspark"]),
    ("airflow", ["airflow", "apache airflow"]),
    ("dbt", ["dbt"])
  ]

  /** `CANONICAL_SKILLS`: the catalog's keys, in order. */
  const CanonicalSkills: seq<string> := Keys(SkillAliases)

  /** The first components of the entries, in order. */
  function Keys(entries: seq<Entry>): (r: seq<string>)
    ensures |r| == |entries| && forall i :: 0 <= i < |entries| ==> r[i] == entries[i].0
  {
    if entries == [] then [] else Keys(entries[..|entries| - 1]) + [entries[|entries| - 1].0]
  }

  ghost predicate Distinct<T>(s: seq<T>)
  {
    forall i, j :: 0 <= i < j < |s| ==> s[i] != s[j]
  }

  lemma CatalogShape()
    ensures |SkillAliases| == |CanonicalSkills| == 28
    ensures forall i :: 0 <= i < |SkillAliases| ==> CanonicalSkills[i] == SkillAliases[i].0
  {
  }

  /** No canonical skill is listed twice: each group is repetition-free and
      shares no skill with the groups before it. */
  lemma CanonicalSkillsDistinct()
    ensures Distinct(CanonicalSkills)
  {
    CoreDataDistinct();
    MlAiDistinct();
    GenAiDistinct();
    AppsWebDistinct();
    CloudInfraDistinct();
    DataPlatformsDistinct();
    MlAiFresh();
    GenAiFresh();
    AppsWebFresh();
    CloudInfraFresh();
    DataPlatformsFresh();
    var p := CoreData;
    DistinctKeysAppend(p, MlAi);
    p := p + MlAi;
    DistinctKeysAppend(p, GenAi);
    p := p + GenAi;
    DistinctKeysAppend(p, AppsWeb);
    p := p + AppsWeb;
    DistinctKeysAppend(p, CloudInfra);
    p := p + CloudInfra;
    DistinctKeysAppend(p, DataPlatforms);
  }

  lemma DistinctKeysAppend(a: seq<Entry>, b: seq<Entry>)
    requires Distinct(Keys(a)) && Distinct(Keys(b)) && Disjoint(Keys(a), Keys(b))
    ensures Distinct(Keys(a + b))
  {
    KeysAppend(a, b);
    DistinctAppend(Keys(a), Keys(b));
  }

  /** No string of `x` occurs in `y`. */
  ghost predicate Disjoint(x: seq<string>, y: seq<string>)
  {
    forall i, j :: 0 <= i < |x| && 0 <= j < |y| ==> x[i] != y[j]
  }

  lemma KeysAppend(a: seq<Entry>, b: seq<Entry>)
    ensures Keys(a + b) == Keys(a) + Keys(b)
  {
  }

  lemma DistinctAppend(x: seq<string>, y: seq<string>)
    requires Distinct(x) && Distinct(y) && Disjoint(x, y)
    ensures Distinct(x + y)
  {
    var z := x + y;
    forall i, j | 0 <= i < j < |z| ensures z[i] != z[j] {
      if j < |x| { assert z[i] == x[i] && z[j] == x[j]; }
      else if i >= |x| { assert z[i] == y[i - |x|] && z[j] == y[j - |x|]; }
      else { assert z[i] == x[i] && z[j] == y[j - |x|]; }
    }
  }

  lemma CoreDataDistinct()
    ensures Distinct(Keys(CoreData))
  {
  }

  lemma MlAiDistinct()
    ensures Distinct(Keys(MlAi))
  {
  }

  lemma GenAiDistinct()
    ensures Distinct(Keys(GenAi))
  {
  }

  lemma AppsWebDistinct()
    ensures Distinct(Keys(AppsWeb))
  {
  }

  lemma CloudInfraDistinct()
    ensures Distinct(Keys(CloudInfra))
  {
  }

  lemma DataPlatformsDistinct()
    ensures Distinct(Keys(DataPlatforms))
  {
  }

  lemma MlAiFresh()
    ensures Disjoint(Keys(CoreData), Keys(MlAi))
  {
  }

  lemma GenAiFresh()
    ensures Disjoint(Keys(CoreData + MlAi), Keys(GenAi))
  {
  }

  lemma AppsWebFresh()
    ensures Disjoint(Keys(CoreData + MlAi + GenAi), Keys(AppsWeb))
  {
  }

  lemma CloudInfraFresh()
    ensures Disjoint(Keys(CoreData + MlAi + GenAi + AppsWeb), Keys(CloudInfra))
  {
  }

  lemma DataPlatformsFresh()
    ensures Disjoint(Keys(CoreData + MlAi + GenAi + AppsWeb + CloudInfra), Keys(DataPlatforms))
  {
  }

  /** Every alias list and every alias in it is non-empty. */
  ghost predicate AliasesWellFormed(entries: seq<Entry>)
  {
    && (forall i :: 0 <= i < |entries| ==> |entries[i].1| > 0)
    && (forall i, k :: 0 <= i < |entries| && 0 <= k < |entries[i].1| ==> |entries[i].1[k]| > 0)
  }

  /** Every canonical skill owns at least one alias, and no alias is empty. */
  lemma CatalogAliasesWellFormed()
    ensures AliasesWellFormed(SkillAliases)
  {
    CoreDataWellFormed();
    MlAiWellFormed();
    GenAiWellFormed();
    AppsWebWellFormed();
    CloudInfraWellFormed();
    DataPlatformsWellFormed();
    WellFormedAppend(CoreData, MlAi);
    WellFormedAppend(CoreData + MlAi, GenAi);
    WellFormedAppend(CoreData + MlAi + GenAi, AppsWeb);
    WellFormedAppend(CoreData + MlAi + GenAi + AppsWeb, CloudInfra);
    WellFormedAppend(CoreData + MlAi + GenAi + AppsWeb + CloudInfra, DataPlatforms);
  }

  lemma CoreDataWellFormed()
    ensures AliasesWellFormed(CoreData)
  {
  }

  lemma MlAiWellFormed()
    ensures AliasesWellFormed(MlAi)
  {
  }

  lemma GenAiWellFormed()
    ensures AliasesWellFormed(GenAi)
  {
  }

  lemma AppsWebWellFormed()
    ensures AliasesWellFormed(AppsWeb)
  {
  }

  lemma CloudInfraWellFormed()
    ensures AliasesWellFormed(CloudInfra)
  {
  }

  lemma DataPlatformsWellFormed()
    ensures AliasesWellFormed(DataPlatforms)
  {
  }

  lemma WellFormedAppend(a: seq<Entry>, b: seq<Entry>)
    requires AliasesWellFormed(a) && AliasesWellFormed(b)
    ensures AliasesWellFormed(a + b)
  {
    var e := a + b;
    forall i, k | 0 <= i < |e| && 0 <= k < |e[i].1| ensures |e[i].1[k]| > 0 {
      if i >= |a| { assert e[i] == b[i - |a|]; }
    }
  }
}
