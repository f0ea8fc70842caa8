/** Which configurations of a data-dependent step learn nothing from the rows. */
module Exemptions {
  import opened Pipelines

  /** What the step registry declares, and how a text threshold reads as a number:
      `aboveZero(s)` when it is a number and not one at or below zero. */
  datatype StepTypes = StepTypes(dataDependent: set<string>, splitters: set<string>, aboveZero: string -> bool)

  datatype Reason = TargetOnly | NamedColumnDrop | ConstantFill | NamedIndicator | NamedHash

  /** A malformed `columns` parameter makes the check itself fail. */
  datatype Exemption = Exempt(reason: Reason) | NotExempt | TypeError

  function Get(params: Params, key: string): Value {
    if key in params then params[key] else Null
  }

  predicate Falsy(v: Value) {
    match v
    case Null => true
    case Flag(b) => !b
    case Int(n) => n == 0
    case Real(r) => r == 0.0
    case Text(s) => s == ""
    case Names(names) => names == []
  }

  predicate IsTargetSource(stepType: string) {
    stepType in {"train_test_split", "TrainTestSplitter", "Split", "feature_target_split", "training"}
  }

  /** The target column the first node that declares one declares. */
  function FindTargetColumn(nodes: seq<Node>): Value {
    if nodes == [] then Null
    else if IsTargetSource(nodes[0].stepType) && !Falsy(Get(nodes[0].params, "target_column"))
    then Get(nodes[0].params, "target_column")
    else FindTargetColumn(nodes[1..])
  }

  datatype Answer = Yes | No | Fails

  /** A Label/Ordinal encoder set to encode the target column and no other; the
      elements of a text are its characters. */
  function IsTargetOnlyEncoding(stepType: string, params: Params, target: Value): Answer {
    var columns := Get(params, "columns");
    if stepType !in {"LabelEncoder", "OrdinalEncoder"} then No
    else if Falsy(columns) then Yes
    else if target == Null then No
    else if target.Names? then Fails
    else match columns
      case Names(names) => if forall c | c in names :: Text(c) == target then Yes else No
      case Text(s) => if forall c | c in s :: Text([c]) == target then Yes else No
      case _ => Fails
  }

  predicate IsExplicitColumnDrop(types: StepTypes, stepType: string, params: Params) {
    stepType == "DropMissingColumns" &&
    match Get(params, "missing_threshold")
    case Flag(b) => !b
    case Int(n) => n <= 0
    case Real(r) => r <= 0.0
    case Text(s) => !types.aboveZero(s)
    case _ => true
  }

  predicate IsConstantImputation(stepType: string, params: Params) {
    stepType == "SimpleImputer" && Get(params, "strategy") == Text("constant")
  }

  predicate IsExplicitMissingIndicator(stepType: string, params: Params) {
    stepType == "MissingIndicator" && !Falsy(Get(params, "columns"))
  }

  predicate IsExplicitHashEncoding(stepType: string, params: Params) {
    stepType == "HashEncoder" && Get(params, "columns").Names?
  }

  function ExemptionReason(types: StepTypes, n: Node, target: Value): Exemption {
    match IsTargetOnlyEncoding(n.stepType, n.params, target)
    case Fails => TypeError
    case Yes => Exempt(TargetOnly)
    case No =>
      if IsExplicitColumnDrop(types, n.stepType, n.params) then Exempt(NamedColumnDrop)
      else if IsConstantImputation(n.stepType, n.params) then Exempt(ConstantFill)
      else if IsExplicitMissingIndicator(n.stepType, n.params) then Exempt(NamedIndicator)
      else if IsExplicitHashEncoding(n.stepType, n.params) then Exempt(NamedHash)
      else NotExempt
  }

  // ----- the rules, as they are documented -----

  /** A parameter that is set to something. */
  predicate IsGiven(n: Node, key: string) {
    key in n.params && n.params[key] !in {Null, Flag(false), Int(0), Real(0.0), Text(""), Names([])}
  }

  predicate IsPositive(types: StepTypes, v: Value) {
    match v
    case Flag(b) => b
    case Int(k) => k > 0
    case Real(r) => r > 0.0
    case Text(s) => types.aboveZero(s)
    case _ => false
  }

  /** The columns are the target column and no other; a text is read by character. */
  predicate ListsOnly(columns: Value, target: Value) {
    target.Text? &&
    match columns
    case Names(names) => (set c | c in names) == {target.text}
    case Text(s) => (set c | c in s :: [c]) == {target.text}
    case _ => false
  }

  /** What is known not to learn from the rows, and why. */
  predicate LearnsNothing(types: StepTypes, target: Value, n: Node, why: Reason) {
    match why
    case ConstantFill =>
      n.stepType == "SimpleImputer" && "strategy" in n.params && n.params["strategy"] == Text("constant")
    case NamedColumnDrop =>
      n.stepType == "DropMissingColumns" &&
      !("missing_threshold" in n.params && IsPositive(types, n.params["missing_threshold"]))
    case NamedIndicator =>
      n.stepType == "MissingIndicator" && IsGiven(n, "columns")
    case NamedHash =>
      n.stepType == "HashEncoder" && "columns" in n.params && n.params["columns"].Names?
    case TargetOnly =>
      (n.stepType == "LabelEncoder" || n.stepType == "OrdinalEncoder") &&
      (!IsGiven(n, "columns") || ListsOnly(n.params["columns"], target))
  }

  predicate IsHarmless(types: StepTypes, target: Value, n: Node) {
    exists why :: LearnsNothing(types, target, n, why)
  }

  /** An encoder whose columns cannot be compared with the target. */
  predicate IsMalformed(target: Value, n: Node) {
    && (n.stepType == "LabelEncoder" || n.stepType == "OrdinalEncoder")
    && IsGiven(n, "columns")
    && target != Null
    && (target.Names? || !(n.params["columns"].Names? || n.params["columns"].Text?))
  }

  /** A step is exempt for a documented reason and for no other; the order in which
      the rules are tried does not matter. */
  lemma RulesExclusive(types: StepTypes, n: Node, target: Value)
    ensures forall why :: ExemptionReason(types, n, target) == Exempt(why) <==> LearnsNothing(types, target, n, why)
    ensures ExemptionReason(types, n, target) == TypeError <==> IsMalformed(target, n)
    ensures ExemptionReason(types, n, target) == NotExempt <==>
              !IsHarmless(types, target, n) && !IsMalformed(target, n)
  {
    if n.stepType in {"LabelEncoder", "OrdinalEncoder"} {
      EncoderRules(n, target);
      forall why | why != TargetOnly ensures !LearnsNothing(types, target, n, why) {
        match why
        case _ =>
      }
    } else {
      OtherRules(types, n, target);
    }
  }

  lemma EncoderRules(n: Node, target: Value)
    requires n.stepType in {"LabelEncoder", "OrdinalEncoder"}
    ensures IsTargetOnlyEncoding(n.stepType, n.params, target) == Yes <==>
              !IsGiven(n, "columns") || ListsOnly(n.params["columns"], target)
    ensures IsTargetOnlyEncoding(n.stepType, n.params, target) == Fails <==> IsMalformed(target, n)
  {
    if IsGiven(n, "columns") {
      match n.params["columns"]
      case Names(names) => OnlyName(names, target);
      case Text(s) => OnlyCharacter(s, target);
      case _ =>
    }
  }

  lemma OnlyName(names: seq<string>, target: Value)
    requires names != []
    ensures ListsOnly(Names(names), target) <==> forall c | c in names :: Text(c) == target
  {
    var columns := set c | c in names;
    assert names[0] in names && names[0] in columns;
    forall c | c in names ensures c in columns {
    }
  }

  lemma OnlyCharacter(s: string, target: Value)
    requires s != ""
    ensures ListsOnly(Text(s), target) <==> forall c | c in s :: Text([c]) == target
  {
    var chars := set c | c in s :: [c];
    assert s[0] in s && [s[0]] in chars;
    forall c | c in s ensures [c] in chars {
    }
  }

  lemma OtherRules(types: StepTypes, n: Node, target: Value)
    requires n.stepType !in {"LabelEncoder", "OrdinalEncoder"}
    ensures forall why :: ExemptionReason(types, n, target) == Exempt(why) <==> LearnsNothing(types, target, n, why)
    ensures ExemptionReason(types, n, target) != TypeError
  {
  }

  /** With a list of columns and a target column named by a text, an encoder is
      exempt exactly if the set of columns is empty or the target alone. */
  lemma TargetOnlyMeans(stepType: string, params: Params, target: string)
    requires stepType in {"LabelEncoder", "OrdinalEncoder"} && Get(params, "columns").Names?
    ensures var columns := set c | c in Get(params, "columns").names;
            IsTargetOnlyEncoding(stepType, params, Text(target)) == Yes <==> columns == {} || columns == {target}
  {
    var names := Get(params, "columns").names;
    var columns := set c | c in names;
    assert forall c | c in names :: c in columns;
    if names != [] {
      assert names[0] in columns;
      if forall c | c in names :: Text(c) == Text(target) {
        assert columns == {target};
      }
    }
  }

  /** A step that may name the target column, and does. */
  predicate DeclaresTarget(n: Node) {
    && n.stepType in {"train_test_split", "TrainTestSplitter", "Split", "feature_target_split", "training"}
    && IsGiven(n, "target_column")
  }

  /** The target column is that of the first node that declares one ... */
  lemma {:induction false} TargetIsFirst(nodes: seq<Node>, i: nat)
    requires i < |nodes| && DeclaresTarget(nodes[i]) && forall k | 0 <= k < i :: !DeclaresTarget(nodes[k])
    ensures FindTargetColumn(nodes) == nodes[i].params["target_column"]
  {
    if i > 0 {
      TargetIsFirst(nodes[1..], i - 1);
    }
  }

  /** ... and there is none if no node does. */
  lemma {:induction false} NoTarget(nodes: seq<Node>)
    requires forall n | n in nodes :: !DeclaresTarget(n)
    ensures FindTargetColumn(nodes) == Null
  {
    if nodes != [] {
      assert nodes[0] in nodes && forall n | n in nodes[1..] :: n in nodes;
      NoTarget(nodes[1..]);
    }
  }
}
