/** Three-component vectors (`nalgebra_glm::Vec3`), with `f32` modelled as `real`. */
module Vectors {

  datatype Vec3 = Vec3(x: real, y: real, z: real) {

    function Add(o: Vec3): Vec3
    {
      Vec3(x + o.x, y + o.y, z + o.z)
    }

    function Sub(o: Vec3): Vec3
    {
      Vec3(x - o.x, y - o.y, z - o.z)
    }

    function Neg(): Vec3
    {
      Vec3(-x, -y, -z)
    }

    function Scale(k: real): Vec3
    {
      Vec3(x * k, y * k, z * k)
    }

    function Dot(o: Vec3): real
    {
      x * o.x + y * o.y + z * o.z
    }

    function Cross(o: Vec3): Vec3
    {
      Vec3(y * o.z - z * o.y, z * o.x - x * o.z, x * o.y - y * o.x)
    }
  }

  const Zero := Vec3(0.0, 0.0, 0.0)

  /** `n` has length one. */
  predicate IsUnit(n: Vec3)
  {
    n.Dot(n) == 1.0
  }
}
