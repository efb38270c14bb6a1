/** `JsonValueKind` and its helpers (src/kind.rs). */
module Kind {

  /** The seven kinds of a parsed value, in declaration order. */
  datatype JsonValueKind = Null | Bool | Integer | Float | String | Array | Object {

    predicate IsNull() {
      this == Null
    }

    predicate IsBool() {
      this == Bool
    }

    predicate IsInteger() {
      this == Integer
    }

    predicate IsFloat() {
      this == Float
    }

    /** True for both number kinds. */
    predicate IsNumber(): (b: bool)
      ensures b <==> IsInteger() || IsFloat()
    {
      this == Integer || this == Float
    }

    predicate IsString() {
      this == String
    }

    predicate IsArray() {
      this == Array
    }

    predicate IsObject() {
      this == Object
    }

    /** The user-facing name; note that `Integer` is called "number". */
    function Name(): (r: string)
      ensures r == "number" <==> this == Integer
      ensures r == "boolean" <==> this == Bool
    {
      match this
      case Null => "null"
      case Bool => "boolean"
      case Integer => "number"
      case Float => "float"
      case String => "string"
      case Array => "array"
      case Object => "object"
    }

    /** Position in the declaration, which is what the derived `Ord` compares. */
    function Ordinal(): nat {
      match this
      case Null => 0
      case Bool => 1
      case Integer => 2
      case Float => 3
      case String => 4
      case Array => 5
      case Object => 6
    }
  }

  /** The derived `PartialOrd`/`Ord` of src/kind.rs:1. */
  predicate Less(a: JsonValueKind, b: JsonValueKind) {
    a.Ordinal() < b.Ordinal()
  }

  /** Exactly one `is_*` predicate other than `is_number` holds for each
      kind, and `is_number` is `is_integer || is_float`. */
  lemma PredicatesPartitionKinds(k: JsonValueKind)
    ensures k.IsNumber() <==> k.IsInteger() || k.IsFloat()
    ensures k.IsNull() ==> !(k.IsBool() || k.IsNumber() || k.IsString() || k.IsArray() || k.IsObject())
    ensures k.IsBool() ==> !(k.IsNull() || k.IsNumber() || k.IsString() || k.IsArray() || k.IsObject())
    ensures k.IsNumber() ==> !(k.IsNull() || k.IsBool() || k.IsString() || k.IsArray() || k.IsObject())
    ensures k.IsString() ==> !(k.IsNull() || k.IsBool() || k.IsNumber() || k.IsArray() || k.IsObject())
    ensures k.IsArray() ==> !(k.IsNull() || k.IsBool() || k.IsNumber() || k.IsString() || k.IsObject())
    ensures k.IsObject() ==> !(k.IsNull() || k.IsBool() || k.IsNumber() || k.IsString() || k.IsArray())
    ensures k.IsNull() || k.IsBool() || k.IsNumber() || k.IsString() || k.IsArray() || k.IsObject()
  {
  }

  /** Different kinds have different names, so a name identifies its kind;
      the two names that differ from the variant's are "boolean" for Bool
      and "number" for Integer. */
  lemma NameIsInjective(a: JsonValueKind, b: JsonValueKind)
    ensures a.Name() == b.Name() <==> a == b
    ensures Bool.Name() == "boolean" && Integer.Name() == "number" && Float.Name() == "float"
  {
  }

  /** The derived ordering is a strict total order that follows the
      declaration: Null < Bool < Integer < Float < String < Array < Object. */
  lemma OrderFollowsDeclaration(a: JsonValueKind, b: JsonValueKind, c: JsonValueKind)
    ensures !Less(a, a)
    ensures Less(a, b) && Less(b, c) ==> Less(a, c)
    ensures a == b || Less(a, b) || Less(b, a)
    ensures Less(Null, Bool) && Less(Bool, Integer) && Less(Integer, Float)
    ensures Less(Float, String) && Less(String, Array) && Less(Array, Object)
  {
  }
}
