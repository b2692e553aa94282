/**
 * Turning the model's extraction output into dataset records:
 * `parse_extraction_result` reads the output as a field map, and
 * `generate_conversations` turns the map into five question/answer turns.
 */
module Extraction {
  import opened Wrappers

  /** A Python value as the model or `json.loads` may produce it (floats are not modelled). */
  datatype Value =
    | Null
    | Bool(b: bool)
    | Int(i: int)
    | Str(s: string)
    | List(items: seq<Value>)
    | Dict(entries: map<string, Value>)

  /** Python truthiness: `None`, `False`, `0` and empty strings and containers are false. */
  predicate Truthy(v: Value) {
    match v
    case Null => false
    case Bool(b) => b
    case Int(i) => i != 0
    case Str(s) => s != ""
    case List(items) => items != []
    case Dict(entries) => entries != map[]
  }

  /** `data.get(key)`: the stored value, or `None` for a missing key. */
  function Get(data: map<string, Value>, key: string): Value {
    if key in data then data[key] else Null
  }

  /**
   * `str(v)`: a string is its own text; any other value is formatted by
   * `render`, which stands for Python's `repr`-style formatting.
   */
  function ToText(v: Value, render: Value -> string): string {
    if v.Str? then v.s else render(v)
  }

  // ----------------------------------------------------------------------
  // parse_extraction_result
  // ----------------------------------------------------------------------

  /** The characters `str.strip()` removes: those for which `str.isspace()` holds. */
  predicate IsSpace(c: char) {
    || c == ' '
    || '\t' <= c <= '\r'
    || '\U{1c}' <= c <= '\U{1f}'
    || c == '\U{85}' || c == '\U{a0}' || c == '\U{1680}'
    || '\U{2000}' <= c <= '\U{200a}'
    || c == '\U{2028}' || c == '\U{2029}' || c == '\U{202f}' || c == '\U{205f}' || c == '\U{3000}'
  }

  function TrimLeft(s: string): string {
    if |s| > 0 && IsSpace(s[0]) then TrimLeft(s[1..]) else s
  }

  function TrimRight(s: string): string {
    if |s| > 0 && IsSpace(s[|s| - 1]) then TrimRight(s[..|s| - 1]) else s
  }

  /** `s.strip()`. */
  function Strip(s: string): string {
    TrimRight(TrimLeft(s))
  }

  /** `s.strip().startswith('{')`. */
  predicate LooksLikeJson(s: string) {
    |Strip(s)| > 0 && Strip(s)[0] == '{'
  }

  /** The first character of `s` that is not white space is an opening brace. */
  ghost predicate OpensWithBrace(s: string) {
    exists k | 0 <= k < |s| :: s[k] == '{' && forall m | 0 <= m < k :: IsSpace(s[m])
  }

  lemma {:induction false} TrimLeftDropsLeadingSpace(s: string) returns (k: nat)
    ensures k <= |s| && TrimLeft(s) == s[k..]
    ensures forall m | 0 <= m < k :: IsSpace(s[m])
    ensures k < |s| ==> !IsSpace(s[k])
  {
    if |s| > 0 && IsSpace(s[0]) {
      var k' := TrimLeftDropsLeadingSpace(s[1..]);
      k := k' + 1;
      assert s[1..][k'..] == s[k..];
      forall m | 0 <= m < k ensures IsSpace(s[m]) {
        if 0 < m {
          assert s[m] == s[1..][m - 1];
        }
      }
    } else {
      k := 0;
    }
  }

  lemma {:induction false} TrimRightKeepsHead(s: string)
    requires |s| > 0 && !IsSpace(s[0])
    ensures |TrimRight(s)| > 0 && TrimRight(s)[0] == s[0]
    decreases |s|
  {
    if IsSpace(s[|s| - 1]) {
      TrimRightKeepsHead(s[..|s| - 1]);
    }
  }

  /** `strip().startswith('{')` holds exactly when the first non-space character is `{`. */
  lemma LooksLikeJsonIff(s: string)
    ensures LooksLikeJson(s) <==> OpensWithBrace(s)
  {
    var k := TrimLeftDropsLeadingSpace(s);
    if k < |s| {
      TrimRightKeepsHead(s[k..]);
      assert Strip(s)[0] == s[k];
      if OpensWithBrace(s) {
        var j :| 0 <= j < |s| && s[j] == '{' && forall m | 0 <= m < j :: IsSpace(s[m]);
        assert !(j < k) && !(k < j);
      }
    }
  }

  /**
   * `parse_extraction_result`: a dict is returned as it is; a string whose first
   * non-space character is `{` is parsed by `loads` (standing for `json.loads`,
   * `None` for an exception); every other string, a failed parse and any other
   * value become `{'raw_text': str(x)}`.
   */
  function ParseExtractionResult(x: Value, loads: string -> Option<map<string, Value>>, render: Value -> string)
    : (parsed: map<string, Value>)
    ensures x.Dict? ==> parsed == x.entries
    ensures x.Str? && OpensWithBrace(x.s) && loads(x.s).Some? ==> parsed == loads(x.s).value
    ensures x.Str? && !(OpensWithBrace(x.s) && loads(x.s).Some?) ==> parsed == map["raw_text" := x]
    ensures !x.Str? && !x.Dict? ==> parsed == map["raw_text" := Str(render(x))]
  {
    match x
    case Str(s) =>
      LooksLikeJsonIff(s);
      if LooksLikeJson(s) then
        match loads(s)
        case Some(d) => d
        case None => map["raw_text" := Str(ToText(x, render))]
      else map["raw_text" := x]
    case Dict(d) => d
    case _ => map["raw_text" := Str(ToText(x, render))]
  }

  // ----------------------------------------------------------------------
  // generate_conversations
  // ----------------------------------------------------------------------

  datatype Role = User | Assistant

  /** One `{'role': ..., 'content': ...}` entry of the conversation. */
  datatype Turn = Turn(role: Role, content: string)

  const Unknown: string := "Không xác định"
  const Cash: string := "Tiền mặt"

  /** How an answer is drawn from the extracted fields. */
  datatype AnswerRule =
    | FirstOf(keys: seq<string>)    // the first truthy field among `keys`, else `Unknown`
    | CashIfAny(keys: seq<string>)  // `Cash` when any field among `keys` is truthy, else `Unknown`

  /** The five questions, in order, with the rule for each answer. */
  const Questions: seq<(string, AnswerRule)> := [
    ("Hóa đơn được xuất tại cửa hàng nào?", FirstOf(["Tên người bán", "Tên cửa hàng"])),
    ("Địa chỉ của cửa hàng là gì?", FirstOf(["Địa chỉ"])),
    ("Hóa đơn được xuất vào ngày nào?", FirstOf(["Ngày giao dịch", "Ngày bán"])),
    ("Tổng số tiền phải thanh toán là bao nhiêu?", FirstOf(["Tổng tiền thanh toán", "Tổng tiền"])),
    ("Khách hàng đã thanh toán bằng cách nào?", CashIfAny(["Tiền mặt", "Tiền khách trả"]))
  ]

  /** `data.get(k1) or data.get(k2) or ... or fallback`. */
  function FirstTruthy(data: map<string, Value>, keys: seq<string>, fallback: Value): Value {
    if keys == [] then fallback
    else if Truthy(Get(data, keys[0])) then Get(data, keys[0])
    else FirstTruthy(data, keys[1..], fallback)
  }

  /** The answer text, after the final `str(...)` the loop applies. */
  function Answer(data: map<string, Value>, rule: AnswerRule, render: Value -> string): string {
    match rule
    case FirstOf(keys) => ToText(FirstTruthy(data, keys, Str(Unknown)), render)
    case CashIfAny(keys) => if Truthy(FirstTruthy(data, keys, Null)) then Cash else Unknown
  }

  /** `question_answer_pairs`. */
  function QuestionAnswerPairs(data: map<string, Value>, render: Value -> string): seq<(string, string)> {
    seq(|Questions|, q requires 0 <= q < |Questions| => (Questions[q].0, Answer(data, Questions[q].1, render)))
  }

  /**
   * The `or` chain yields the value of the first key whose value is truthy, and
   * the fallback when none is.
   */
  lemma {:induction false} FirstTruthyIsFirst(data: map<string, Value>, keys: seq<string>, fallback: Value)
    returns (f: nat)
    ensures f <= |keys|
    ensures forall k | 0 <= k < f :: !Truthy(Get(data, keys[k]))
    ensures f < |keys| ==> Truthy(Get(data, keys[f])) && FirstTruthy(data, keys, fallback) == Get(data, keys[f])
    ensures f == |keys| ==> FirstTruthy(data, keys, fallback) == fallback
  {
    if keys == [] {
      f := 0;
    } else if Truthy(Get(data, keys[0])) {
      f := 0;
    } else {
      var f' := FirstTruthyIsFirst(data, keys[1..], fallback);
      f := f' + 1;
      forall k | 0 <= k < f ensures !Truthy(Get(data, keys[k])) {
        if 0 < k {
          assert keys[k] == keys[1..][k - 1];
        }
      }
    }
  }

  /** A field answer is the text of the first truthy field among its keys, or `Unknown` when none is truthy. */
  lemma FieldAnswerIsFirstTruthy(data: map<string, Value>, keys: seq<string>, render: Value -> string)
    returns (f: nat)
    ensures f <= |keys|
    ensures forall k | 0 <= k < f :: !Truthy(Get(data, keys[k]))
    ensures f < |keys| ==> Truthy(Get(data, keys[f])) && Answer(data, FirstOf(keys), render) == ToText(Get(data, keys[f]), render)
    ensures f == |keys| ==> Answer(data, FirstOf(keys), render) == Unknown
  {
    f := FirstTruthyIsFirst(data, keys, Str(Unknown));
  }

  /** The payment answer is `Cash` exactly when `Tiền mặt` or `Tiền khách trả` holds a truthy value. */
  lemma PaymentAnswerIff(data: map<string, Value>, render: Value -> string)
    ensures Answer(data, Questions[4].1, render) == Cash
        <==> Truthy(Get(data, "Tiền mặt")) || Truthy(Get(data, "Tiền khách trả"))
    ensures Answer(data, Questions[4].1, render) == Cash || Answer(data, Questions[4].1, render) == Unknown
  {
    var keys := ["Tiền mặt", "Tiền khách trả"];
    var f := FirstTruthyIsFirst(data, keys, Null);
    assert Cash != Unknown;
  }

  /**
   * Text that does not parse as a JSON object (its first non-space character is
   * not `{`, or `loads` rejects it) carries no invoice field, so every answer of
   * the conversation is `Unknown`.
   */
  lemma RawTextAnswersUnknown(x: Value, loads: string -> Option<map<string, Value>>, render: Value -> string, q: nat)
    requires x.Str? && !(OpensWithBrace(x.s) && loads(x.s).Some?)
    requires q < |Questions|
    ensures Answer(ParseExtractionResult(x, loads, render), Questions[q].1, render) == Unknown
  {
    var data := ParseExtractionResult(x, loads, render);
    assert data == map["raw_text" := x];
    var keys := Questions[q].1.keys;
    forall k | 0 <= k < |keys| ensures Get(data, keys[k]) == Null {
      assert keys[k] != "raw_text";
    }
    var f := FirstTruthyIsFirst(data, keys, if Questions[q].1.FirstOf? then Str(Unknown) else Null);
  }

  /**
   * `generate_conversations`: for each question in order, a user turn asking it
   * and an assistant turn with its answer, drawn from the parsed output.
   */
  method GenerateConversations(extractionResult: Value, loads: string -> Option<map<string, Value>>, render: Value -> string)
    returns (conversations: seq<Turn>)
    ensures |conversations| == 2 * |Questions| == 10
    ensures forall k | 0 <= k < |conversations| :: conversations[k].role == (if k % 2 == 0 then User else Assistant)
    ensures forall q | 0 <= q < |Questions| ::
      && conversations[2 * q].content == Questions[q].0
      && conversations[2 * q + 1].content
         == Answer(ParseExtractionResult(extractionResult, loads, render), Questions[q].1, render)
  {
    conversations := [];
    var extractedData := ParseExtractionResult(extractionResult, loads, render);
    var questionAnswerPairs := QuestionAnswerPairs(extractedData, render);
    for q := 0 to |questionAnswerPairs|
      invariant |conversations| == 2 * q
      invariant forall p | 0 <= p < q ::
        && conversations[2 * p] == Turn(User, questionAnswerPairs[p].0)
        && conversations[2 * p + 1] == Turn(Assistant, questionAnswerPairs[p].1)
    {
      var (question, answer) := questionAnswerPairs[q];
      conversations := conversations + [Turn(User, question), Turn(Assistant, answer)];
    }
    forall k | 0 <= k < |conversations|
      ensures conversations[k].role == (if k % 2 == 0 then User else Assistant)
    {
      var p := k / 2;
      assert p < |questionAnswerPairs| && (k == 2 * p || k == 2 * p + 1);
      assert conversations[2 * p].role == User && conversations[2 * p + 1].role == Assistant;
    }
  }
}
