/** The Knowledge record and the closed set of categories (src/types/knowledge.ts). */
module KnowledgeTypes {

  datatype Option<+T> = None | Some(value: T) {
    function GetOr(default: T): T {
      match this
      case Some(v) => v
      case None => default
    }
  }

  /** The closed category set. */
  datatype Category = Science | Art | History | Nature | Philosophy | Misc

  /** The category's tag as it travels in URLs, query parameters and rows. */
  function CategoryName(c: Category): (name: string)
    ensures name != "" && name != "all" && name != "random"
  {
    match c
    case Science => "science"
    case Art => "art"
    case History => "history"
    case Nature => "nature"
    case Philosophy => "philosophy"
    case Misc => "misc"
  }

  /** Distinct categories have distinct tags, so a tag names one category. */
  lemma CategoryNameInjective(a: Category, b: Category)
    ensures CategoryName(a) == CategoryName(b) <==> a == b
  {
  }

  /** The pages' category selector: "all" or one category. */
  datatype CategoryFilter = All | Only(category: Category)

  datatype Role = User | Bot

  datatype ChatMessage = ChatMessage(role: Role, content: string, timestamp: int)

  /** One knowledge record. `parentId` null is `None`; `chatLog` is optional in the record type. */
  datatype Knowledge = Knowledge(
    id: string,
    title: string,
    category: Category,
    description: string,
    parentId: Option<string>,
    generation: int,
    createdAt: string,
    createdBy: string,
    chatLog: Option<seq<ChatMessage>>,
    timesShown: int,
    childrenCount: int)

  /** JavaScript truthiness of a `string | null`: null and "" are false. */
  predicate Truthy(s: Option<string>) {
    s.Some? && s.value != ""
  }

  /** No value occurs twice in `s`. */
  predicate Distinct<T(==)>(s: seq<T>) {
    forall i, j :: 0 <= i < j < |s| ==> s[i] != s[j]
  }

  /** No two records of `ks` share an id. */
  predicate UniqueIds(ks: seq<Knowledge>) {
    forall i, j :: 0 <= i < j < |ks| ==> ks[i].id != ks[j].id
  }

  /** The record's parent link, when it is truthy. */
  predicate HasParent(k: Knowledge) {
    Truthy(k.parentId)
  }
}
