/** The three built-in node kinds (core/src/workflow/nodes/): a text source, a language
    model stand-in that echoes its prompt, and a text sink that keeps the last text it
    received. */
module Nodes {
  import opened Wrappers
  import opened Ports
  import DataTypes
  import Context

  /** A single port carrying text. */
  function TextPort(id: string): Port {
    Port(id, DataTypes.Text, false)
  }

  /** `TextInputNode`: holds a text and offers it on its one output port. */
  class TextInputNode {
    const text: string
    const ports: DynamicPorts

    /** `new`: one output port "text", no input port, and the given text. */
    constructor(text: string)
      ensures this.text == text
      ensures fresh(ports) && ports.Valid()
      ensures ports.inputs == map[] && ports.outputs == map["text" := TextPort("text")]
    {
      var p := new DynamicPorts();
      p.AddOutput(TextPort("text"));
      this.text := text;
      ports := p;
    }

    /** `execute`: the stored text. */
    function Execute(): (r: string)
      ensures r == text
    {
      text
    }
  }

  /** A new input node gives back the text it was built with. */
  method InputEcho(text: string) returns (r: string)
    ensures r == text
  {
    var node := new TextInputNode(text);
    r := node.Execute();
  }

  /** `LLMNode`: names a model and answers a prompt with a fixed template. */
  class LLMNode {
    const modelId: string
    const ports: DynamicPorts

    /** `new`: one input port "prompt", one output port "response", and the model id. */
    constructor(modelId: string)
      ensures this.modelId == modelId
      ensures fresh(ports) && ports.Valid()
      ensures ports.inputs == map["prompt" := TextPort("prompt")]
      ensures ports.outputs == map["response" := TextPort("response")]
    {
      var p := new DynamicPorts();
      p.AddInput(TextPort("prompt"));
      p.AddOutput(TextPort("response"));
      this.modelId := modelId;
      ports := p;
    }

    /** `execute`: "[模型<model>响应] 你输入了: <prompt>". The reply names the model right
        after its three-character opening and ends with the prompt itself; the context is
        not consulted. */
    function Execute(prompt: string, ctx: Context.ExecutionContext): (r: string)
      ensures |r| == 3 + |modelId| + 10 + |prompt|
      ensures r[..3] == "[模型" && r[3..3 + |modelId|] == modelId
      ensures r[3 + |modelId|..13 + |modelId|] == "响应] 你输入了: "
      ensures r[|r| - |prompt|..] == prompt
    {
      "[模型" + modelId + "响应] 你输入了: " + prompt
    }
  }

  /** Two prompts get the same reply from a model only when they are the same prompt. */
  lemma ReplyDeterminesPrompt(node: LLMNode, p1: string, p2: string, ctx: Context.ExecutionContext)
    requires node.Execute(p1, ctx) == node.Execute(p2, ctx)
    ensures p1 == p2
  {
    var r := node.Execute(p1, ctx);
    assert |p1| == |p2|;
    assert p1 == r[|r| - |p1|..];
  }

  /** `TextOutputNode`: keeps the last text it was given. */
  class TextOutputNode {
    const ports: DynamicPorts
    var result: Option<string>

    /** `new`: one input port "text", no output port, and no result yet. */
    constructor()
      ensures fresh(ports) && ports.Valid()
      ensures ports.inputs == map["text" := TextPort("text")] && ports.outputs == map[]
      ensures result == None
    {
      var p := new DynamicPorts();
      p.AddInput(TextPort("text"));
      ports := p;
      result := None;
    }

    /** `Default`, which is `new`. */
    static method Default() returns (node: TextOutputNode)
      ensures fresh(node) && fresh(node.ports) && node.ports.Valid()
      ensures node.ports.inputs == map["text" := TextPort("text")] && node.ports.outputs == map[]
      ensures node.result == None
    {
      node := new TextOutputNode();
    }

    /** `execute`: the input becomes the result (the console echo is not modelled). */
    method Execute(input: string)
      modifies this
      ensures result == Some(input)
    {
      result := Some(input);
    }
  }

  /** After two calls the output node holds the second input. */
  method LastInputWins(first: string, second: string) returns (r: Option<string>)
    ensures r == Some(second)
  {
    var node := new TextOutputNode();
    node.Execute(first);
    node.Execute(second);
    r := node.result;
  }
}
