/**
 * The data loaders that select which part of the data a pipeline run uses,
 * and the loading step that turns a loader into the list of dataframes to
 * join. Reading files is not modelled: the dataframes that reading produces
 * are parameters.
 */
module Loaders {
  import opened Tables
  import Joins

  /** A condition (disease or control group); the data of a condition lives
      in a directory named after it. */
  datatype Condition = Condition(name: string)

  /** A tissue; samples record its `value`. */
  datatype Tissue = Tissue(name: string, value: string)

  /** A sequencing technique; samples record its `value`, plot titles show
      its `name`. */
  datatype SequencingTechnique = SequencingTechnique(name: string, value: string)

  /** The loader variants the pipeline matches on, plus `OtherDataLoader`
      for any further loader that is none of them. */
  datatype DataLoader =
    | ConditionDataLoader(condition: Condition)
    | ConditionTissueDataLoader(condition: Condition, tissue: Tissue)
    | ConditionSequencingDataLoader(condition: Condition, sequencingTechnique: SequencingTechnique)
    | ConditionSequencingTissueDataLoader(condition: Condition, sequencingTechnique: SequencingTechnique,
                                          tissue: Tissue, genes: Option<seq<Name>>)
    | FileDataLoader(condition: Condition, fileName: string, genes: Option<seq<Name>>,
                     samples: Option<seq<string>>)
    | OtherDataLoader(condition: Condition)

  /** `load_data_per_condition`: `found` are the dataframes read from the
      parquet files of the condition's directory under `path`. */
  function LoadDataPerCondition(condition: Condition, path: string, found: seq<Table>): (r: Result<seq<Table>>)
    ensures r.Failure? <==> found == []
    ensures r.Failure? ==> r.error == NoFilesFound(path)
    ensures r.Success? ==> r.value == found && |r.value| > 0
  {
    if |found| == 0 then Failure(NoFilesFound(path)) else Success(found)
  }

  /** The loading step of `get_pre_processed_dataset`: a file loader reads
      its one file (`fileTable`), every other loader reads the whole
      condition directory (`found`). */
  function LoadData(loader: DataLoader, dataPath: string, fileTable: Table, found: seq<Table>): (r: Result<seq<Table>>)
    ensures loader.FileDataLoader? ==> r == Success([fileTable])
    ensures !loader.FileDataLoader? ==> r == LoadDataPerCondition(loader.condition, dataPath, found)
  {
    match loader
    case FileDataLoader(_, _, _, _) => Success([fileTable])
    case _ => LoadDataPerCondition(loader.condition, dataPath, found)
  }

  /** The join that follows loading never meets an empty list: its
      `head, *tail` split cannot fail, and a failure of the load is the
      missing-files error. */
  lemma LoadedJoinNeverEmpty(loader: DataLoader, dataPath: string, fileTable: Table, found: seq<Table>)
    ensures LoadData(loader, dataPath, fileTable, found).Success? ==>
              Joins.JoinAll(Joins.OuterCoalesce, LoadData(loader, dataPath, fileTable, found).value) != Failure(EmptyList)
    ensures LoadData(loader, dataPath, fileTable, found).Failure? ==>
              !loader.FileDataLoader? && found == [] &&
              LoadData(loader, dataPath, fileTable, found).error == NoFilesFound(dataPath)
  {
  }
}
