/** The firewall configuration: sections with a type and options. */
module FirewallStore {
  import opened Uci
  import opened Wrappers

  /** An option holds a text or a list of texts. */
  datatype Value = Scalar(text: string) | List(items: seq<string>) {

    function AsList(): seq<string> {
      if Scalar? then [text] else items
    }

    predicate Truthy() {
      if Scalar? then text != [] else items != []
    }
  }

  datatype Section = Section(kind: string, options: map<string, Value>) {

    predicate Has(name: string) {
      name in options && options[name].Truthy()
    }

    function Get(name: string): Option<Value> {
      if name in options then Some(options[name]) else None
    }
  }

  type Firewall = Config<Section>

  datatype Class = Defaults | Zone | Forwarding | OtherRule | ForwardRule | OutputRule | InputRule

  predicate IsForward(s: Section) {
    s.Has("dest") && s.Has("src")
  }

  predicate IsInput(s: Section) {
    !s.Has("dest") && s.Has("src")
  }

  predicate IsOutput(s: Section) {
    s.Has("dest") && !s.Has("src")
  }

  function ClassOf(s: Section): Class {
    if s.kind == "rule" then
      if IsForward(s) then ForwardRule
      else if IsInput(s) then InputRule
      else if IsOutput(s) then OutputRule
      else OtherRule
    else if s.kind == "zone" then Zone
    else if s.kind == "forwarding" then Forwarding
    else Defaults
  }

  function Is(k: Class): Section -> bool {
    s => ClassOf(s) == k
  }

  /** The sections of one class in file order. */
  function ClassIds(c: Firewall, k: Class): seq<string> {
    c.Ids(Is(k))
  }
}
