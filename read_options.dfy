/**
 * The reader options the notebook builds for one file before loading it
 * with Auto Loader: three keys for every format, plus a header flag and a
 * delimiter for the two delimited-text formats.
 */
module ReadOptions {

  const FormatKey := "cloudFiles.format"
  const SchemaLocationKey := "cloudFiles.schemaLocation"
  const InferColumnTypesKey := "cloudFiles.inferColumnTypes"
  const HeaderKey := "header"
  const DelimiterKey := "delimiter"

  /** Where Auto Loader keeps the inferred schema of one table: `<checkpoint>/<table>/schema`. */
  function SchemaLocation(checkpointPath: string, table: string): (location: string)
    ensures |location| == |checkpointPath| + |table| + 8
    ensures location[..|checkpointPath| + 1] == checkpointPath + "/"
    ensures location[|checkpointPath| + 1 .. |checkpointPath| + 1 + |table|] == table
    ensures location[|checkpointPath| + 1 + |table|..] == "/schema"
  {
    checkpointPath + "/" + table + "/schema"
  }

  /** Options a file of `format` bound for `table` is read with. */
  function Options(format: string, checkpointPath: string, table: string): (options: map<string, string>)
    ensures options.Keys ==
      {FormatKey, SchemaLocationKey, InferColumnTypesKey}
      + (if format == "csv" || format == "txt" then {HeaderKey, DelimiterKey} else {})
    ensures options[FormatKey] == format
    ensures options[SchemaLocationKey] == SchemaLocation(checkpointPath, table)
    ensures options[InferColumnTypesKey] == "true"
    ensures format == "csv" ==> options[HeaderKey] == "true" && options[DelimiterKey] == ","
    ensures format == "txt" ==> options[HeaderKey] == "true" && options[DelimiterKey] == "\t"
  {
    var base := map[
      FormatKey := format,
      SchemaLocationKey := SchemaLocation(checkpointPath, table),
      InferColumnTypesKey := "true"];
    if format == "csv" then base[HeaderKey := "true"][DelimiterKey := ","]
    else if format == "txt" then base[HeaderKey := "true"][DelimiterKey := "\t"]
    else base
  }

  /**
   * The dictionary as the notebook builds it: three entries, then the two
   * format-specific entries added in place by two independent tests.
   */
  method BuildOptions(format: string, checkpointPath: string, table: string)
    returns (options: map<string, string>)
    ensures options == Options(format, checkpointPath, table)
  {
    options := map[
      FormatKey := format,
      SchemaLocationKey := SchemaLocation(checkpointPath, table),
      InferColumnTypesKey := "true"];
    if format == "csv" {
      options := options[HeaderKey := "true"];
      options := options[DelimiterKey := ","];
    }
    if format == "txt" {
      options := options[HeaderKey := "true"];
      options := options[DelimiterKey := "\t"];
    }
  }

  /** Different tables never share a schema location under one checkpoint root. */
  lemma SchemaLocationInjective(checkpointPath: string, table1: string, table2: string)
    requires SchemaLocation(checkpointPath, table1) == SchemaLocation(checkpointPath, table2)
    ensures table1 == table2
  {
    var location := SchemaLocation(checkpointPath, table1);
    assert |table1| == |table2|;
    assert table1 == location[|checkpointPath| + 1 .. |checkpointPath| + 1 + |table1|];
  }
}
