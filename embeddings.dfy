/**
 * The index-build script: one pass over the dataset builds the texts to
 * embed and the metadata records in lockstep, and a search maps the
 * vector index's positions back to metadata.
 */
module Embeddings {
  import opened Wrappers
  import opened Text
  import opened Dataset

  const NoTablesMessage := "No tables found in DuckDB. Run gold_table.py first."

  /** The metadata record kept for one indexed row; `date` is stored as its string form. */
  datatype Meta = Meta(rowId: nat, city: string, date: string, pm25: Cell, pm10: Cell, no2: Cell)

  /** The texts handed to the embedding model and the parallel metadata list. */
  datatype Corpus = Corpus(documents: seq<string>, metadata: seq<Meta>)

  /**
   * The natural-language sentence embedded for one reading; the date, the
   * city and the three measurements appear in it verbatim.
   */
  function Describe(date: string, city: string, pm25: Cell, pm10: Cell, no2: Cell): (d: string)
    ensures Occurs(date, d) && Occurs(city, d)
    ensures Occurs(pm25.text, d) && Occurs(pm10.text, d) && Occurs(no2.text, d)
  {
    var p0 := "On " + date + " in ";
    var p1 := p0 + city + ", PM2.5 was ";
    var p2 := p1 + pm25.text + ", PM10 was ";
    var p3 := p2 + pm10.text + ", NO2 was ";
    var d := p3 + no2.text + ".";
    assert d[3..3 + |date|] == date;
    assert d[|p0|..|p0| + |city|] == city;
    assert d[|p1|..|p1| + |pm25.text|] == pm25.text;
    assert d[|p2|..|p2| + |pm10.text|] == pm10.text;
    assert d[|p3|..|p3| + |no2.text|] == no2.text;
    d
  }

  /** The document embedded for a row: the row's own date, city and readings in the sentence. */
  function Document(row: Row): (d: string)
    ensures Occurs(row.date.text, d) && Occurs(row.city, d)
    ensures Occurs(row.pm25.text, d) && Occurs(row.pm10.text, d) && Occurs(row.no2.text, d)
  {
    Describe(row.date.text, row.city, row.pm25, row.pm10, row.no2)
  }

  /** The sentence rendered from a metadata record. */
  function DescribeMeta(m: Meta): (d: string) {
    Describe(m.date, m.city, m.pm25, m.pm10, m.no2)
  }

  /**
   * The metadata record of row `rowId`: it carries the row's label and
   * renders to exactly the document embedded for the row.
   */
  function MetaOf(rowId: nat, row: Row): (m: Meta)
    ensures m.rowId == rowId && m.city == row.city && m.date == row.date.text
    ensures m.pm25 == row.pm25 && m.pm10 == row.pm10 && m.no2 == row.no2
    ensures DescribeMeta(m) == Document(row)
  {
    Meta(rowId, row.city, row.date.text, row.pm25, row.pm10, row.no2)
  }

  /**
   * The build pass. `tables` is what `SHOW TABLES` lists and `df` the rows
   * of `air_quality_cleaned`, whose index labels are their positions.
   * Without any table the script raises before building anything;
   * otherwise document i and metadata record i come from row i, and the
   * record carries row i's label and the very text the document embeds.
   */
  method BuildCorpus(tables: seq<string>, df: seq<Row>) returns (r: Result<Corpus, string>)
    ensures r.Failure? <==> |tables| == 0
    ensures r.Failure? ==> r.error == NoTablesMessage
    ensures r.Success? ==> |r.value.documents| == |r.value.metadata| == |df|
    ensures r.Success? ==> forall i :: 0 <= i < |df| ==>
              && r.value.documents[i] == Document(df[i])
              && r.value.metadata[i] == MetaOf(i, df[i])
    ensures r.Success? ==> forall i :: 0 <= i < |df| ==>
              && r.value.metadata[i].rowId == i
              && r.value.documents[i] == DescribeMeta(r.value.metadata[i])
  {
    if |tables| == 0 {
      return Failure(NoTablesMessage);
    }
    var documents: seq<string> := [];
    var metadata: seq<Meta> := [];
    for idx := 0 to |df|
      invariant |documents| == |metadata| == idx
      invariant forall i :: 0 <= i < idx ==> documents[i] == Document(df[i]) && metadata[i] == MetaOf(i, df[i])
    {
      var row := df[idx];
      documents := documents + [Document(row)];
      metadata := metadata + [MetaOf(idx, row)];
    }
    r := Success(Corpus(documents, metadata));
  }

  /**
   * `search` after the index lookup: one metadata record per returned
   * position, in the order the index returned them.
   */
  method Search(metadata: seq<Meta>, indices: seq<int>) returns (results: seq<Meta>)
    requires forall j :: 0 <= j < |indices| ==> 0 <= indices[j] < |metadata|
    ensures |results| == |indices|
    ensures forall j :: 0 <= j < |indices| ==> results[j] == metadata[indices[j]]
  {
    results := [];
    for j := 0 to |indices|
      invariant |results| == j
      invariant forall k :: 0 <= k < j ==> results[k] == metadata[indices[k]]
    {
      results := results + [metadata[indices[j]]];
    }
  }

  /**
   * Searching metadata built from `df` yields, for each returned
   * position p, the record of row p, labelled p.
   */
  lemma SearchHitsAreRows(df: seq<Row>, metadata: seq<Meta>, indices: seq<int>, results: seq<Meta>)
    requires |metadata| == |df| && forall i :: 0 <= i < |df| ==> metadata[i] == MetaOf(i, df[i])
    requires forall j :: 0 <= j < |indices| ==> 0 <= indices[j] < |metadata|
    requires |results| == |indices| && forall j :: 0 <= j < |indices| ==> results[j] == metadata[indices[j]]
    ensures forall j :: 0 <= j < |results| ==>
              && results[j].rowId == indices[j]
              && results[j].city == df[indices[j]].city
              && DescribeMeta(results[j]) == Document(df[indices[j]])
  {
  }
}
