/** The verdict vocabulary shared by the rule engine and the confirm store. */
module Verdicts {

  datatype RiskLevel = L1 | L2 | L3 | L4
  {
    function Rank(): nat {
      match this
      case L1 => 0
      case L2 => 1
      case L3 => 2
      case L4 => 3
    }
  }

  datatype SafetyAction = Allow | Preview | Redact | Block
  {
    function Severity(): nat {
      match this
      case Allow => 0
      case Preview => 1
      case Redact => 2
      case Block => 3
    }
  }

  datatype CheckStage = Regex | Ast | Semantic
  {
    function Rank(): nat {
      match this
      case Regex => 3
      case Ast => 2
      case Semantic => 1
    }
  }
}
