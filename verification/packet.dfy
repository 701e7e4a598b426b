/** The packet: a list of protocol layers, at most one per OSI level. */
module Packets {
  import opened Bytes
  import opened Results

  datatype LayerType = EthernetLayer | DNSLayer

  /** What the `Layer` trait reports about a layer. */
  datatype Layer = Layer(name: string, layerType: LayerType, osiLevel: byte)

  datatype Packet = Packet(layers: seq<Layer>)

  /** The invariant `add_layer` keeps: no two layers share an OSI level. */
  predicate DistinctLevels(p: Packet)
  {
    forall i, j :: 0 <= i < j < |p.layers| ==> p.layers[i].osiLevel != p.layers[j].osiLevel
  }

  /** `Packet::new`: no layers. */
  function New(): (p: Packet)
    ensures |p.layers| == 0 && DistinctLevels(p)
  {
    Packet([])
  }

  /** The loop of `add_layer`: some layer already has this level. */
  function LevelPresent(layers: seq<Layer>, level: byte): (b: bool)
    ensures b <==> exists i :: 0 <= i < |layers| && layers[i].osiLevel == level
  {
    if |layers| == 0 then false
    else layers[0].osiLevel == level || LevelPresent(layers[1..], level)
  }

  /** `Packet::add_layer`: fails when the level is taken, and otherwise
      appends the layer after the existing ones.  On failure no packet is
      returned, so the caller's packet stays as it was. */
  function AddLayer(p: Packet, layer: Layer): (r: Result<Packet>)
    ensures r.Failure? <==> exists i :: 0 <= i < |p.layers| && p.layers[i].osiLevel == layer.osiLevel
    ensures r.Failure? ==> r.error == DuplicateLayer
    ensures r.Success? ==> r.value.layers == p.layers + [layer]
    ensures r.Success? && DistinctLevels(p) ==> DistinctLevels(r.value)
  {
    if LevelPresent(p.layers, layer.osiLevel) then Failure(DuplicateLayer)
    else Success(Packet(p.layers + [layer]))
  }

  /** Layer `i` is the first one called `name`. */
  predicate FirstNamed(layers: seq<Layer>, i: int, name: string)
  {
    && 0 <= i < |layers|
    && layers[i].name == name
    && forall j :: 0 <= j < i ==> layers[j].name != name
  }

  /** `Packet::get_layer`: the first layer with the given name, if any. */
  function GetLayer(p: Packet, name: string): (r: Option<Layer>)
    ensures r.None? <==> forall i :: 0 <= i < |p.layers| ==> p.layers[i].name != name
    ensures r.Some? ==> exists i :: FirstNamed(p.layers, i, name) && p.layers[i] == r.value
    decreases |p.layers|
  {
    if |p.layers| == 0 then None
    else if p.layers[0].name == name then
      assert FirstNamed(p.layers, 0, name);
      Some(p.layers[0])
    else
      var r := GetLayer(Packet(p.layers[1..]), name);
      assert r.Some? ==> exists i :: FirstNamed(p.layers, i, name) && p.layers[i] == r.value by {
        if r.Some? {
          var i :| FirstNamed(p.layers[1..], i, name) && p.layers[1..][i] == r.value;
          assert p.layers[i + 1] == r.value;
          forall j | 0 <= j < i + 1
            ensures p.layers[j].name != name
          {
            if j > 0 {
              assert p.layers[j] == p.layers[1..][j - 1];
            }
          }
          assert FirstNamed(p.layers, i + 1, name);
        }
      }
      r
  }

  /** The Ethernet layer of the data-link module: name "Ethernet", level 2. */
  const ETHERNET: Layer := Layer("Ethernet", EthernetLayer, 2)

  /** Adding the Ethernet layer twice fails the second time, and the layer
      added the first time is found by its name. */
  lemma EthernetTwice()
    ensures AddLayer(New(), ETHERNET).Success?
    ensures AddLayer(AddLayer(New(), ETHERNET).value, ETHERNET) == Failure(DuplicateLayer)
    ensures GetLayer(AddLayer(New(), ETHERNET).value, "Ethernet") == Some(ETHERNET)
  {
    var p := AddLayer(New(), ETHERNET).value;
    assert p.layers == [ETHERNET];
    assert p.layers[0].osiLevel == ETHERNET.osiLevel;
  }
}
