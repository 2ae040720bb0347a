/**
 * The title `plot_condition_2d` gives a 2-D scatter plot: the projection
 * method followed by a quoted label naming the condition and the loader's
 * qualifiers, separated by `|`. A loader the title selection does not name
 * raises an error. Drawing the plot is not modelled.
 */
module Plotting {
  import opened Tables
  import opened Loaders

  /** The quoted part of the title; `None` for a loader without one. */
  function Label(loader: DataLoader): Option<string>
  {
    match loader
    case ConditionDataLoader(condition) => Some(condition.name)
    case ConditionTissueDataLoader(condition, tissue) => Some(condition.name + "|" + tissue.value)
    case FileDataLoader(condition, fileName, _, _) => Some(condition.name + "|" + fileName)
    case ConditionSequencingDataLoader(condition, technique) => Some(condition.name + "|" + technique.name)
    case ConditionSequencingTissueDataLoader(condition, technique, tissue, _) =>
      Some(condition.name + "|" + technique.name + "|" + tissue.value)
    case OtherDataLoader(_) => None
  }

  /** The title of the plot drawn for `loader` with projection `method`. */
  function PlotTitle(loader: DataLoader, projection: string): (r: Result<string>)
    ensures r.Failure? <==> loader.OtherDataLoader?
    ensures r.Failure? ==> r.error == UnhandledLoader
    ensures r.Success? ==> Label(loader).Some? && r.value == projection + " of '" + Label(loader).value + "' Dataset"
  {
    match Label(loader)
    case None => Failure(UnhandledLoader)
    case Some(text) => Success(projection + " of '" + text + "' Dataset")
  }

  /** The number of `|` separators in `s`. */
  function Pipes(s: string): (n: nat)
    ensures n <= |s|
  {
    if s == [] then 0 else (if s[0] == '|' then 1 else 0) + Pipes(s[1..])
  }

  lemma {:induction false} PipesAppend(a: string, b: string)
    ensures Pipes(a + b) == Pipes(a) + Pipes(b)
  {
    if a != [] {
      assert (a + b)[0] == a[0];
      assert (a + b)[1..] == a[1..] + b;
      PipesAppend(a[1..], b);
    } else {
      assert a + b == b;
    }
  }

  /** How many qualifiers a loader adds to the condition in its title. */
  function Qualifiers(loader: DataLoader): nat
  {
    match loader
    case ConditionSequencingTissueDataLoader(_, _, _, _) => 2
    case ConditionDataLoader(_) => 0
    case OtherDataLoader(_) => 0
    case _ => 1
  }

  /** The parts of the label, none of which holds a separator in a
      well-named data set. */
  predicate PartsWithoutPipes(loader: DataLoader)
  {
    && Pipes(loader.condition.name) == 0
    && (loader.ConditionTissueDataLoader? || loader.ConditionSequencingTissueDataLoader? ==> Pipes(loader.tissue.value) == 0)
    && (loader.ConditionSequencingDataLoader? || loader.ConditionSequencingTissueDataLoader? ==>
          Pipes(loader.sequencingTechnique.name) == 0)
    && (loader.FileDataLoader? ==> Pipes(loader.fileName) == 0)
  }

  /** The label starts with the condition name, and with parts free of `|`
      it holds one separator per qualifier. */
  lemma LabelShape(loader: DataLoader)
    requires !loader.OtherDataLoader?
    ensures var text := Label(loader).value;
            |loader.condition.name| <= |text| && text[..|loader.condition.name|] == loader.condition.name
    ensures PartsWithoutPipes(loader) ==> Pipes(Label(loader).value) == Qualifiers(loader)
  {
    var name := loader.condition.name;
    var rest := Label(loader).value[|name|..];
    assert Label(loader).value == name + rest;
    assert "|"[1..] == [];
    assert Pipes("|") == 1;
    match loader
    case ConditionDataLoader(_) =>
    case ConditionTissueDataLoader(_, tissue) =>
      assert rest == "|" + tissue.value;
      PipesAppend(name, "|" + tissue.value);
      PipesAppend("|", tissue.value);
    case FileDataLoader(_, fileName, _, _) =>
      assert rest == "|" + fileName;
      PipesAppend(name, "|" + fileName);
      PipesAppend("|", fileName);
    case ConditionSequencingDataLoader(_, technique) =>
      assert rest == "|" + technique.name;
      PipesAppend(name, "|" + technique.name);
      PipesAppend("|", technique.name);
    case ConditionSequencingTissueDataLoader(_, technique, tissue, _) =>
      assert rest == "|" + technique.name + ("|" + tissue.value);
      PipesAppend(name, rest);
      PipesAppend("|" + technique.name, "|" + tissue.value);
      PipesAppend("|", technique.name);
      PipesAppend("|", tissue.value);
  }

  /** Two titles with the same method are equal only when the labels are:
      the title determines its label. */
  lemma TitleDeterminesLabel(a: DataLoader, b: DataLoader, projection: string)
    requires PlotTitle(a, projection).Success? && PlotTitle(b, projection).Success?
    requires PlotTitle(a, projection).value == PlotTitle(b, projection).value
    ensures Label(a) == Label(b)
  {
    var prefix := projection + " of '";
    var suffix := "' Dataset";
    var la, lb := Label(a).value, Label(b).value;
    var t := PlotTitle(a, projection).value;
    assert t == prefix + la + suffix;
    assert t == prefix + lb + suffix;
    assert |la| == |lb|;
    assert la == t[|prefix|..|prefix| + |la|];
    assert lb == t[|prefix|..|prefix| + |lb|];
  }

  /** A sequencing loader's title shows the technique's `name`, so two
      techniques that differ only in `value` (the column value filtering
      uses) give the same title. */
  lemma TitleIgnoresTechniqueValue(condition: Condition, name: string, v1: string, v2: string, projection: string)
    ensures PlotTitle(ConditionSequencingDataLoader(condition, SequencingTechnique(name, v1)), projection)
         == PlotTitle(ConditionSequencingDataLoader(condition, SequencingTechnique(name, v2)), projection)
  {
  }

  /** The title of a condition loader. */
  lemma ConditionTitleExample()
    ensures PlotTitle(ConditionDataLoader(Condition("ALS")), "PCA") == Success("PCA of 'ALS' Dataset")
  {
    assert "PCA" + " of '" + "ALS" + "' Dataset" == "PCA of 'ALS' Dataset";
  }
}
