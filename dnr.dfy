/** The part of the browser's declarativeNetRequest vocabulary that the rule
    compilers produce: header operations, the action type, resource types and
    the rule record itself. */
module Dnr {

  datatype HeaderOperation = Set | Append

  datatype RuleActionType = ModifyHeaders

  datatype ResourceType =
    | MainFrame | SubFrame | Stylesheet | Script | Image | Font | Object
    | XmlHttpRequest | Ping | CspReport | Media | WebSocket | Other

  /** One header mutation inside a rule's action. */
  datatype ModifyHeaderInfo = ModifyHeaderInfo(header: string, operation: HeaderOperation, value: string)

  datatype RuleAction = RuleAction(actionType: RuleActionType, requestHeaders: seq<ModifyHeaderInfo>)

  datatype RuleCondition = RuleCondition(regexFilter: string, resourceTypes: seq<ResourceType>)

  datatype Rule = Rule(id: int, priority: int, action: RuleAction, condition: RuleCondition)

  /** The resource types every compiled rule lists, in the order both
      compilers write them. */
  const ALL_RESOURCE_TYPES: seq<ResourceType> :=
    [MainFrame, SubFrame, Stylesheet, Script, Image, Font, Object,
     XmlHttpRequest, Ping, CspReport, Media, WebSocket, Other]

  /** The fixed list names each of the thirteen resource types exactly once. */
  lemma AllResourceTypesListedOnce()
    ensures |ALL_RESOURCE_TYPES| == 13
    ensures forall t: ResourceType :: t in ALL_RESOURCE_TYPES
    ensures forall a, b :: 0 <= a < b < |ALL_RESOURCE_TYPES| ==> ALL_RESOURCE_TYPES[a] != ALL_RESOURCE_TYPES[b]
  {
    forall t: ResourceType ensures t in ALL_RESOURCE_TYPES {
      match t
      case MainFrame => assert ALL_RESOURCE_TYPES[0] == t;
      case SubFrame => assert ALL_RESOURCE_TYPES[1] == t;
      case Stylesheet => assert ALL_RESOURCE_TYPES[2] == t;
      case Script => assert ALL_RESOURCE_TYPES[3] == t;
      case Image => assert ALL_RESOURCE_TYPES[4] == t;
      case Font => assert ALL_RESOURCE_TYPES[5] == t;
      case Object => assert ALL_RESOURCE_TYPES[6] == t;
      case XmlHttpRequest => assert ALL_RESOURCE_TYPES[7] == t;
      case Ping => assert ALL_RESOURCE_TYPES[8] == t;
      case CspReport => assert ALL_RESOURCE_TYPES[9] == t;
      case Media => assert ALL_RESOURCE_TYPES[10] == t;
      case WebSocket => assert ALL_RESOURCE_TYPES[11] == t;
      case Other => assert ALL_RESOURCE_TYPES[12] == t;
    }
  }
}
